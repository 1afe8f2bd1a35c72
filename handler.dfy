/**
 * The system-call trap handler: it validates the user stack pointer, reads
 * the call number, walks a word cursor over the argument slots above it,
 * validating each slot before reading it, dispatches, and writes the result
 * into the trap frame's `eax` -- or ends the process with exit(-1).
 *
 * `Handle` is the specification: the outcome of one trap as a value, with the
 * addresses the handler reads and the effects it performs. `SyscallHandler`
 * is the handler itself, over the trap frame and the current thread.
 */
module Handler {
  import opened Words
  import opened Validator
  import opened Services

  // System-call numbers. They come from <syscall-nr.h>, which is not part of
  // this model; the values are that header's, and only their distinctness
  // matters below.
  const SYS_HALT: u32 := 0
  const SYS_EXIT: u32 := 1
  const SYS_EXEC: u32 := 2
  const SYS_WAIT: u32 := 3
  const SYS_CREATE: u32 := 4
  const SYS_REMOVE: u32 := 5
  const SYS_OPEN: u32 := 6
  const SYS_FILESIZE: u32 := 7
  const SYS_READ: u32 := 8
  const SYS_WRITE: u32 := 9
  const SYS_SEEK: u32 := 10
  const SYS_TELL: u32 := 11
  const SYS_CLOSE: u32 := 12

  /** The calls the handler serves; every other number ends the process. */
  predicate IsHandled(callNo: u32) {
    callNo == SYS_HALT || callNo == SYS_CREATE || callNo == SYS_OPEN
    || callNo == SYS_REMOVE || callNo == SYS_WRITE || callNo == SYS_EXIT
  }

  /** How many argument words a handled call reads above the call number. */
  function Arity(callNo: u32): nat {
    if callNo == SYS_CREATE then 2
    else if callNo == SYS_WRITE then 3
    else if callNo == SYS_OPEN || callNo == SYS_REMOVE || callNo == SYS_EXIT then 1
    else 0
  }

  /** Which argument word holds the pointer that is checked for null (0: none). */
  function PointerSlot(callNo: u32): nat {
    if callNo == SYS_CREATE || callNo == SYS_OPEN || callNo == SYS_REMOVE then 1
    else if callNo == SYS_WRITE then 2
    else 0
  }

  /** User memory, one 32-bit word per address (the word whose first byte is there). */
  type Memory = map<u32, u32>

  /** How a trap ends: the machine is switched off, the process exits, or control returns with `eax`. */
  datatype Outcome = Halted | Exited(status: i32) | Returned(eax: u32)

  /**
   * One trap: its outcome, the user addresses the handler dereferenced in
   * order, and the effects it performed in order.
   */
  datatype Step = Step(outcome: Outcome, loads: seq<u32>, effects: seq<Effect>)

  /** The first `n` positions of a word cursor that starts at `esp`. */
  function Slots(esp: u32, n: nat): (s: seq<u32>)
    ensures |s| == n
    ensures esp + 4 * n <= WORD_MODULUS ==> forall k :: 0 <= k < n ==> s[k] == esp + 4 * k
    decreases n
  {
    if n == 0 then [] else [esp] + Slots(NextWord(esp), n - 1)
  }

  /** `sys_exit (-1)` after the addresses in `loads` were read. */
  function Killed(name: string, loads: seq<u32>): Step {
    Step(Exited(-1), loads, [ExitLine(name, -1)])
  }

  /** The trap, as a value. */
  function Handle(name: string, pd: PageDir, mem: Memory, esp: u32, fs: Filesys): (r: Step)
    requires pd <= mem.Keys
    ensures |r.loads| <= 4
    ensures forall k :: 0 <= k < |r.loads| ==>
              r.loads[k] == esp + 4 * k && IsValidMemoryAccess(pd, r.loads[k])
    ensures r.loads == [] <==> !IsValidMemoryAccess(pd, esp)
    ensures !IsValidMemoryAccess(pd, esp) ==> r == Step(Exited(-1), [], [ExitLine(name, -1)])
    ensures r.outcome.Returned? ==> esp in mem && IsHandled(mem[esp]) && |r.loads| == 1 + Arity(mem[esp])
    ensures r.outcome.Returned? ==>
              |r.effects| <= 1 && forall i :: 0 <= i < |r.effects| ==> IsServiceEffect(r.effects[i])
    ensures r.outcome.Halted? ==> r.effects == []
    ensures r.outcome.Exited? ==> r.effects == [ExitLine(name, r.outcome.status)]
  {
    if !IsValidMemoryAccess(pd, esp) then
      Killed(name, [])
    else
      var callNo := mem[esp];
      if callNo == SYS_HALT then
        Step(Halted, [esp], [])
      else if callNo == SYS_CREATE then
        HandleCreate(name, pd, mem, esp, fs)
      else if callNo == SYS_OPEN then
        HandleOpen(name, pd, mem, esp, fs)
      else if callNo == SYS_REMOVE then
        HandleRemove(name, pd, mem, esp, fs)
      else if callNo == SYS_WRITE then
        HandleWrite(name, pd, mem, esp)
      else if callNo == SYS_EXIT then
        HandleExit(name, pd, mem, esp)
      else
        Killed(name, [esp])
  }

  // The arms of the switch. The second test on the first argument slot in
  // CREATE, OPEN and REMOVE re-validates the slot just read, not the address
  // it holds, exactly as the source does.

  function HandleCreate(name: string, pd: PageDir, mem: Memory, esp: u32, fs: Filesys): Step
    requires pd <= mem.Keys && IsValidMemoryAccess(pd, esp)
  {
    var p1 := NextWord(esp);
    if !IsValidMemoryAccess(pd, p1) then Killed(name, [esp])
    else
      var buffer := mem[p1];
      if buffer == NULL || !IsValidMemoryAccess(pd, p1) then Killed(name, [esp, p1])
      else
        var p2 := NextWord(p1);
        if !IsValidMemoryAccess(pd, p2) then Killed(name, [esp, p1])
        else
          var size := mem[p2];
          var (ok, effects) := SysCreate(fs, buffer, size);
          Step(Returned(if ok then 1 else 0), [esp, p1, p2], effects)
  }

  function HandleOpen(name: string, pd: PageDir, mem: Memory, esp: u32, fs: Filesys): Step
    requires pd <= mem.Keys && IsValidMemoryAccess(pd, esp)
  {
    var p1 := NextWord(esp);
    if !IsValidMemoryAccess(pd, p1) then Killed(name, [esp])
    else
      var buffer := mem[p1];
      if buffer == NULL || !IsValidMemoryAccess(pd, p1) then Killed(name, [esp, p1])
      else
        var (fd, effects) := SysOpen(fs, buffer);
        Step(Returned(ToUint32(fd)), [esp, p1], effects)
  }

  function HandleRemove(name: string, pd: PageDir, mem: Memory, esp: u32, fs: Filesys): Step
    requires pd <= mem.Keys && IsValidMemoryAccess(pd, esp)
  {
    var p1 := NextWord(esp);
    if !IsValidMemoryAccess(pd, p1) then Killed(name, [esp])
    else
      var buffer := mem[p1];
      if buffer == NULL || !IsValidMemoryAccess(pd, p1) then Killed(name, [esp, p1])
      else
        var (ok, effects) := SysRemove(fs, buffer);
        Step(Returned(if ok then 1 else 0), [esp, p1], effects)
  }

  function HandleWrite(name: string, pd: PageDir, mem: Memory, esp: u32): Step
    requires pd <= mem.Keys && IsValidMemoryAccess(pd, esp)
  {
    var p1 := NextWord(esp);
    if !IsValidMemoryAccess(pd, p1) then Killed(name, [esp])
    else
      var fd := mem[p1];
      var p2 := NextWord(p1);
      if !IsValidMemoryAccess(pd, p2) then Killed(name, [esp, p1])
      else
        var buffer := mem[p2];
        if buffer == NULL then Killed(name, [esp, p1, p2])
        else
          var p3 := NextWord(p2);
          if !IsValidMemoryAccess(pd, p3) then Killed(name, [esp, p1, p2])
          else
            var size := mem[p3];
            var (written, effects) := SysWrite(ToInt32(fd), buffer, size);
            Step(Returned(ToUint32(written)), [esp, p1, p2, p3], effects)
  }

  function HandleExit(name: string, pd: PageDir, mem: Memory, esp: u32): Step
    requires pd <= mem.Keys && IsValidMemoryAccess(pd, esp)
  {
    var p1 := NextWord(esp);
    if !IsValidMemoryAccess(pd, p1) then Killed(name, [esp])
    else
      var status := ToInt32(mem[p1]);
      Step(Exited(status), [esp, p1], [ExitLine(name, status)])
  }

  /** The part of `struct intr_frame` the handler touches. */
  class IntrFrame {
    const esp: u32
    var eax: u32

    constructor (esp: u32, eax: u32)
      ensures this.esp == esp && this.eax == eax
    {
      this.esp := esp;
      this.eax := eax;
    }
  }

  /**
   * `syscall_handler`. The cursor `userEsp` advances one word at a time; each
   * slot is validated before it is read. `sys_exit` does not return, so every
   * call to it ends the handler, with `eax` untouched.
   */
  method SyscallHandler(f: IntrFrame, t: Thread, mem: Memory, fs: Filesys)
    returns (outcome: Outcome, loads: seq<u32>, effects: seq<Effect>)
    requires t.pagedir <= mem.Keys
    modifies f`eax, t`exitStatus
    ensures Step(outcome, loads, effects) == Handle(t.name, t.pagedir, mem, f.esp, fs)
    ensures f.eax == if outcome.Returned? then outcome.eax else old(f.eax)
    ensures t.exitStatus == if outcome.Exited? then outcome.status else old(t.exitStatus)
  {
    if !IsValidMemoryAccess(t.pagedir, f.esp) {
      var line := SysExit(t, -1);
      return Exited(-1), [], [line];
    }
    var userEsp := f.esp;
    var callNo := mem[userEsp];
    loads := [userEsp];

    if callNo == SYS_HALT {
      // shutdown_power_off
      return Halted, loads, [];

    } else if callNo == SYS_CREATE {
      userEsp := NextWord(userEsp);
      if !IsValidMemoryAccess(t.pagedir, userEsp) {
        var line := SysExit(t, -1);
        return Exited(-1), loads, [line];
      }
      var buffer := mem[userEsp];
      loads := loads + [userEsp];
      if buffer == NULL || !IsValidMemoryAccess(t.pagedir, userEsp) {
        var line := SysExit(t, -1);
        return Exited(-1), loads, [line];
      }
      userEsp := NextWord(userEsp);
      if !IsValidMemoryAccess(t.pagedir, userEsp) {
        var line := SysExit(t, -1);
        return Exited(-1), loads, [line];
      }
      var size := mem[userEsp];
      loads := loads + [userEsp];
      var (ok, fx) := SysCreate(fs, buffer, size);
      f.eax := if ok then 1 else 0;
      return Returned(f.eax), loads, fx;

    } else if callNo == SYS_OPEN {
      userEsp := NextWord(userEsp);
      if !IsValidMemoryAccess(t.pagedir, userEsp) {
        var line := SysExit(t, -1);
        return Exited(-1), loads, [line];
      }
      var buffer := mem[userEsp];
      loads := loads + [userEsp];
      if buffer == NULL || !IsValidMemoryAccess(t.pagedir, userEsp) {
        var line := SysExit(t, -1);
        return Exited(-1), loads, [line];
      }
      var (fd, fx) := SysOpen(fs, buffer);
      f.eax := ToUint32(fd);
      return Returned(f.eax), loads, fx;

    } else if callNo == SYS_REMOVE {
      userEsp := NextWord(userEsp);
      if !IsValidMemoryAccess(t.pagedir, userEsp) {
        var line := SysExit(t, -1);
        return Exited(-1), loads, [line];
      }
      var buffer := mem[userEsp];
      loads := loads + [userEsp];
      if buffer == NULL || !IsValidMemoryAccess(t.pagedir, userEsp) {
        var line := SysExit(t, -1);
        return Exited(-1), loads, [line];
      }
      var (ok, fx) := SysRemove(fs, buffer);
      f.eax := if ok then 1 else 0;
      return Returned(f.eax), loads, fx;

    } else if callNo == SYS_WRITE {
      userEsp := NextWord(userEsp);
      if !IsValidMemoryAccess(t.pagedir, userEsp) {
        var line := SysExit(t, -1);
        return Exited(-1), loads, [line];
      }
      var fd := mem[userEsp];
      loads := loads + [userEsp];
      userEsp := NextWord(userEsp);
      if !IsValidMemoryAccess(t.pagedir, userEsp) {
        var line := SysExit(t, -1);
        return Exited(-1), loads, [line];
      }
      var buffer := mem[userEsp];
      loads := loads + [userEsp];
      if buffer == NULL {
        var line := SysExit(t, -1);
        return Exited(-1), loads, [line];
      }
      userEsp := NextWord(userEsp);
      if !IsValidMemoryAccess(t.pagedir, userEsp) {
        var line := SysExit(t, -1);
        return Exited(-1), loads, [line];
      }
      var size := mem[userEsp];
      loads := loads + [userEsp];
      var (written, fx) := SysWrite(ToInt32(fd), buffer, size);
      f.eax := ToUint32(written);
      return Returned(f.eax), loads, fx;

    } else if callNo == SYS_EXIT {
      userEsp := NextWord(userEsp);
      if !IsValidMemoryAccess(t.pagedir, userEsp) {
        var line := SysExit(t, -1);
        return Exited(-1), loads, [line];
      }
      var status := mem[userEsp];
      loads := loads + [userEsp];
      var line := SysExit(t, ToInt32(status));
      return Exited(ToInt32(status)), loads, [line];

    } else {
      var line := SysExit(t, -1);
      return Exited(-1), loads, [line];
    }
  }
}
