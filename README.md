# Pintos system-call handler, modelled in Dafny

This project models the system-call trap handler of a Pintos user-program
kernel (`userprog/syscall.c`). When a user program traps into the kernel, the
handler does five things:

- it checks the stack pointer with `is_valid_memory_access`;
- it reads the call number;
- it walks a word cursor up the user stack, validating each argument slot
  before reading it;
- it null-checks pointer arguments and dispatches to HALT, CREATE, OPEN,
  REMOVE, WRITE or EXIT;
- it writes the result into the trap frame's `eax`.

Every validation failure ends the process through `sys_exit(-1)`, and so does
every other call number.

The project has five modules, one per file:

- `Words` (`words.dfy`): 32-bit words and the C conversions the handler
  performs. These are `uint32_t` to `int` and back, and `user_esp++` as
  pointer arithmetic modulo 2^32.
- `Validator` (`validator.dfy`): the address validator. The page directory is
  abstracted to the set of mapped user addresses. `LOADER_PHYS_BASE` is a named
  constant with the value from `threads/loader.h`; that header is not part of
  this model.
- `Services` (`services.dfy`): `sys_create`, `sys_remove`, `sys_open` and
  `sys_write` are functions that return their C result and the effects they
  perform. `sys_exit` is a method on the `Thread` class: it updates
  `exitStatus` and produces the exit line.
- `Handler` (`handler.dfy`): `Handle` is the specification of one trap as a
  value. It returns a `Step` with three parts: the outcome
  (`Halted | Exited(status) | Returned(eax)`), the user addresses read, in
  order, and the effects performed, in order. The effects are filesystem
  calls, console writes and the exit line. `SyscallHandler` is the handler
  itself, an imperative method over an `IntrFrame` and a `Thread`. It is proved
  to produce exactly `Handle`'s step, to write `eax` only when it returns, and
  to set `exitStatus` only when the process exits.
- `HandlerProperties` (`handler_properties.dfy`): the per-call behaviour and
  the ordering and non-interference of the reads.

The model follows the code, not a richer intended design:

- There is no descriptor table. `sys_open` answers 3 for every successful
  open.
- CLOSE, READ, WAIT, EXEC and the other numbers kill the process.
- The second check after reading a file-name pointer re-validates the stack
  slot, not the address it holds.
- WRITE only null-checks its buffer.
- The lemmas `KernelBufferReachesConsole` and `KernelNameReachesFilesystem`
  exhibit concrete stacks on which a kernel address reaches the console or the
  filesystem.

Syscall numbers come from `<syscall-nr.h>`, which is not part of this model.
They are named constants with that header's values, and the proofs use only
their distinctness.

## Model

| member | source | states |
|---|---|---|
| `Words.ToInt32` | userprog/syscall.c:137-138 | the `uint32_t` to `int` conversion keeps the 32-bit pattern: converting back gives the same word, and the result is negative exactly when the top bit is set |
| `Words.ToUint32` | userprog/syscall.c:129 | storing an `int` into the unsigned `eax` is reduction modulo 2^32 and leaves values in range unchanged |
| `Words.Int32RoundTrip` | userprog/syscall.c:137-138 | every `int` survives the trip through `uint32_t` unchanged |
| `Words.NextWord` | userprog/syscall.c:52 | `user_esp++` advances the address by one 4-byte word, wrapping at 2^32 |
| `Validator.IsValidMemoryAccess` | userprog/syscall.c:150-156 | an address is accepted iff it is non-null, strictly below `LOADER_PHYS_BASE`, strictly above `CODE_PHYS_BASE` and mapped (both directions) |
| `Validator.ValidIffMappedUserAddress` | userprog/syscall.c:150-156 | validity is exactly membership in the mapped part of the open user region |
| `Validator.BoundsAreExclusive` | userprog/syscall.c:151 | null, exactly `CODE_PHYS_BASE` (0x08048000), and `LOADER_PHYS_BASE` and above are rejected whatever is mapped |
| `Validator.InnermostAddressesNeedOnlyMapping` | userprog/syscall.c:151 | `CODE_PHYS_BASE + 1` and `LOADER_PHYS_BASE - 1` are accepted exactly when mapped |
| `Validator.ValidAddressLeavesRoomForArguments` | userprog/syscall.c:151 | from a valid stack pointer, the three argument words above it lie below 2^32 |
| `Services.SysCreate` | userprog/syscall.c:161-164 | one filesystem create call whose answer is the result; the file is not opened |
| `Services.SysRemove` | userprog/syscall.c:169-172 | one filesystem remove call whose answer is the result |
| `Services.SysOpen` | userprog/syscall.c:182-189 | result is 3 when the filesystem opens the file and -1 otherwise, never 0 or 1, with one filesystem open call |
| `Services.SysWrite` | userprog/syscall.c:213-220 | fd 1 gives exactly one console write of the whole buffer and returns `size` (as `int`); any other fd gives no output and returns 0 |
| `Services.SysExit` | userprog/syscall.c:196-201 | sets the thread's exit status to the given status and emits the line `name: exit(status)` |
| `Handler.Slots` | userprog/syscall.c:103-126 | the first n positions of the `user_esp` cursor are `esp, esp+4, ...` as long as no wrap-around occurs |
| `Handler.Handle` | userprog/syscall.c:25-144 | at most four words are read; each lies at `esp + 4k` and is valid; an invalid `esp` gives exit(-1) with nothing read; a return means the call is served and all its arguments were read, with at most one filesystem or console effect; an exit has the exit line as its only effect; a halt has no effect |
| `Handler.SyscallHandler` | userprog/syscall.c:25-144 | the imperative handler produces exactly `Handle`'s outcome, reads and effects, writes `eax` only on return, and sets `exit_status` only on exit |
| `HandlerProperties.LoadsFollowTheCursor` | userprog/syscall.c:103-126 | the addresses read are exactly a prefix of the cursor walk, in strictly increasing order |
| `HandlerProperties.OnlyLoadedWordsMatter` | userprog/syscall.c:33-41 | two memories that agree on the reported reads give the same trap, so no other word is read |
| `HandlerProperties.FirstInvalidSlotExits` | userprog/syscall.c:52-67 | the first invalid argument slot gives exit(-1), with only the slots below it read and no service effect |
| `HandlerProperties.NullPointerExits` | userprog/syscall.c:57-61 | a null name or buffer for CREATE, OPEN, REMOVE or WRITE gives exit(-1), with no filesystem or console effect and no later slot read |
| `HandlerProperties.UnknownCallExits` | userprog/syscall.c:140-141 | every number other than the six served calls gives exit(-1) after reading only the call number |
| `HandlerProperties.HaltHalts` | userprog/syscall.c:46-49 | HALT reads only the call number, has no effect and halts |
| `HandlerProperties.CreateReturns` | userprog/syscall.c:51-70 | CREATE with valid slots and a non-null name returns the filesystem's answer as 1 or 0 in `eax` |
| `HandlerProperties.OpenReturns` | userprog/syscall.c:72-85 | OPEN with a valid slot and a non-null name returns 3 or 0xFFFFFFFF (-1) in `eax`, as the filesystem succeeds or fails |
| `HandlerProperties.RemoveReturns` | userprog/syscall.c:87-100 | REMOVE with a valid slot and a non-null name returns the filesystem's answer as 1 or 0 in `eax` |
| `HandlerProperties.WriteReturns` | userprog/syscall.c:102-130 | WRITE with valid slots and a non-null buffer: fd 1 gives one console write of `size` bytes and `eax = size`; any other fd gives no output and `eax = 0` |
| `HandlerProperties.ExitPassesStatus` | userprog/syscall.c:131-139 | EXIT passes the stack word, read as a signed `int` with the same bits, as the exit status and exit-line status |
| `HandlerProperties.KernelBufferReachesConsole` | userprog/syscall.c:116-129 | a WRITE buffer at `LOADER_PHYS_BASE`, which is invalid, still reaches the console, because only null is checked |
| `HandlerProperties.KernelNameReachesFilesystem` | userprog/syscall.c:57-69 | a CREATE name at `LOADER_PHYS_BASE`, which is invalid, still reaches the filesystem, because the re-check is on the slot |

## Left out

- `syscall_init` and interrupt-gate installation: hardware plumbing.
- `shutdown_power_off` and `thread_exit`: modelled only as the terminal outcomes `Halted` and `Exited`. Thread teardown and the parent's wait are not part of this model.
- `pagedir_get_page`: abstracted to a set of mapped addresses. Page granularity and page-table walking are not modelled.
- The bytes of a word: memory is modelled as one 32-bit word per address. The source validates only the first byte of each word. The model does not capture a word whose later bytes fall on an unmapped page, or the fault that reading it would raise.
- `filesys_create`, `filesys_remove` and `filesys_open`: modelled as an oracle that answers success or failure per name pointer. Filesystem state and its evolution across calls are not modelled.
- `putbuf` and `printf`: modelled as effects in the trace (`ConsoleWrite`, `ExitLine`). Text formatting and the console device are not modelled.
- The memory behind a name or buffer pointer: it is never read by the handler itself, so the model carries only the pointer value.
- Descriptor tables, read, close, seek, tell, filesize, exec and wait, the filesystem lock, and parent/child exit-status handling: the code has none of these. The model sends those calls to exit(-1), as the code does.
- Concurrency: one trap is modelled at a time.
