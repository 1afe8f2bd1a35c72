/**
 * What one trap does, call by call: which slot failures and null pointers
 * end the process, what each served call returns in `eax`, and which user
 * words the outcome can depend on.
 */
module HandlerProperties {
  import opened Words
  import opened Validator
  import opened Services
  import opened Handler

  /** The word at `a` is mapped and holds the null pointer. */
  predicate HoldsNull(mem: Memory, a: u32) {
    a in mem && mem[a] == NULL
  }

  /**
   * The handler reads memory only at the addresses it reports: two memories
   * that agree on those words give the same trap, whatever else they hold.
   * With an invalid stack pointer nothing is read, so not even the call
   * number can influence the outcome.
   */
  lemma OnlyLoadedWordsMatter(name: string, pd: PageDir, m1: Memory, m2: Memory, esp: u32, fs: Filesys)
    requires pd <= m1.Keys && pd <= m2.Keys
    requires forall a :: a in Handle(name, pd, m1, esp, fs).loads ==> a in m1 && a in m2 && m1[a] == m2[a]
    ensures Handle(name, pd, m2, esp, fs) == Handle(name, pd, m1, esp, fs)
  {
    var r := Handle(name, pd, m1, esp, fs);
    if IsValidMemoryAccess(pd, esp) {
      assert r.loads[0] == esp;
      var p1, p2, p3 := NextWord(esp), NextWord(NextWord(esp)), NextWord(NextWord(NextWord(esp)));
      if 1 < |r.loads| {
        assert r.loads[1] == p1;
      }
      if 2 < |r.loads| {
        assert r.loads[2] == p2;
      }
      if 3 < |r.loads| {
        assert r.loads[3] == p3;
      }
    }
  }

  /**
   * The addresses the handler dereferences are exactly the first positions of
   * the word cursor `user_esp`, in increasing order, each one validated: the
   * call number at `esp`, then the argument words at `esp + 4`, `esp + 8` and
   * `esp + 12`, with no wrap-around.
   */
  lemma LoadsFollowTheCursor(name: string, pd: PageDir, mem: Memory, esp: u32, fs: Filesys)
    requires pd <= mem.Keys
    ensures var loads := Handle(name, pd, mem, esp, fs).loads;
            && loads == Slots(esp, |loads|)
            && forall i, j :: 0 <= i < j < |loads| ==> loads[i] < loads[j]
  {
    var loads := Handle(name, pd, mem, esp, fs).loads;
    if loads != [] {
      ValidAddressLeavesRoomForArguments(pd, esp);
      var s := Slots(esp, |loads|);
      assert forall k :: 0 <= k < |loads| ==> loads[k] == s[k];
    }
  }

  /**
   * The first argument slot that fails validation ends the process with
   * exit(-1): the slots below it were read, no later slot is, and no service
   * routine runs.
   */
  lemma FirstInvalidSlotExits(name: string, pd: PageDir, mem: Memory, esp: u32, fs: Filesys, k: nat)
    requires pd <= mem.Keys && IsValidMemoryAccess(pd, esp)
    requires 1 <= k <= Arity(mem[esp])
    requires forall j :: 1 <= j < k ==> IsValidMemoryAccess(pd, esp + 4 * j)
    requires !IsValidMemoryAccess(pd, esp + 4 * k)
    requires 0 < PointerSlot(mem[esp]) < k ==> !HoldsNull(mem, esp + 4 * PointerSlot(mem[esp]))
    ensures Handle(name, pd, mem, esp, fs) == Step(Exited(-1), Slots(esp, k), [ExitLine(name, -1)])
  {
    var s := Slots(esp, k);
    assert s[0] == esp;
    if k == 2 {
      assert s[1] == esp + 4;
    } else if k == 3 {
      assert s[1] == esp + 4 && s[2] == esp + 8;
    }
  }

  /**
   * A null pointer argument to CREATE, OPEN, REMOVE or WRITE ends the process
   * with exit(-1) before any filesystem or console effect; the words above
   * the pointer are not read.
   */
  lemma NullPointerExits(name: string, pd: PageDir, mem: Memory, esp: u32, fs: Filesys)
    requires pd <= mem.Keys && IsValidMemoryAccess(pd, esp)
    requires PointerSlot(mem[esp]) > 0
    requires forall j :: 1 <= j <= PointerSlot(mem[esp]) ==> IsValidMemoryAccess(pd, esp + 4 * j)
    requires HoldsNull(mem, esp + 4 * PointerSlot(mem[esp]))
    ensures Handle(name, pd, mem, esp, fs)
            == Step(Exited(-1), Slots(esp, PointerSlot(mem[esp]) + 1), [ExitLine(name, -1)])
  {
    var p := PointerSlot(mem[esp]);
    var s := Slots(esp, p + 1);
    assert s[0] == esp && s[1] == esp + 4;
    if p == 2 {
      assert IsValidMemoryAccess(pd, esp + 4);
      assert s[2] == esp + 8;
    }
  }

  /**
   * Every number other than HALT, CREATE, OPEN, REMOVE, WRITE and EXIT --
   * CLOSE, READ, WAIT, EXEC and the rest among them -- ends the process with
   * exit(-1) once the call number has been read.
   */
  lemma UnknownCallExits(name: string, pd: PageDir, mem: Memory, esp: u32, fs: Filesys)
    requires pd <= mem.Keys && IsValidMemoryAccess(pd, esp)
    requires !IsHandled(mem[esp])
    ensures Handle(name, pd, mem, esp, fs) == Step(Exited(-1), [esp], [ExitLine(name, -1)])
  {
  }

  /** HALT reads nothing but the call number, performs no effect and switches the machine off. */
  lemma HaltHalts(name: string, pd: PageDir, mem: Memory, esp: u32, fs: Filesys)
    requires pd <= mem.Keys && IsValidMemoryAccess(pd, esp)
    requires mem[esp] == SYS_HALT
    ensures Handle(name, pd, mem, esp, fs) == Step(Halted, [esp], [])
  {
  }

  /**
   * CREATE with both argument slots valid and a non-null name asks the
   * filesystem once and returns its answer as 1 or 0.
   */
  lemma CreateReturns(name: string, pd: PageDir, mem: Memory, esp: u32, fs: Filesys)
    requires pd <= mem.Keys && IsValidMemoryAccess(pd, esp)
    requires mem[esp] == SYS_CREATE
    requires IsValidMemoryAccess(pd, esp + 4) && IsValidMemoryAccess(pd, esp + 8)
    requires mem[esp + 4] != NULL
    ensures var file, size := mem[esp + 4], mem[esp + 8];
            var ok := fs.create(file, size);
            Handle(name, pd, mem, esp, fs)
            == Step(Returned(if ok then 1 else 0), Slots(esp, 3), [FsCreate(file, size, ok)])
  {
    var s := Slots(esp, 3);
    assert s[0] == esp && s[1] == esp + 4 && s[2] == esp + 8;
  }

  /**
   * OPEN with a valid slot and a non-null name returns 3 in `eax` when the
   * filesystem opens the file and -1 (all bits set) when it does not.
   */
  lemma OpenReturns(name: string, pd: PageDir, mem: Memory, esp: u32, fs: Filesys)
    requires pd <= mem.Keys && IsValidMemoryAccess(pd, esp)
    requires mem[esp] == SYS_OPEN
    requires IsValidMemoryAccess(pd, esp + 4) && mem[esp + 4] != NULL
    ensures var file := mem[esp + 4];
            var ok := fs.open(file);
            Handle(name, pd, mem, esp, fs)
            == Step(Returned(if ok then 3 else 0xFFFF_FFFF), Slots(esp, 2), [FsOpen(file, ok)])
  {
    var s := Slots(esp, 2);
    assert s[0] == esp && s[1] == esp + 4;
  }

  /** REMOVE with a valid slot and a non-null name asks the filesystem once and returns its answer. */
  lemma RemoveReturns(name: string, pd: PageDir, mem: Memory, esp: u32, fs: Filesys)
    requires pd <= mem.Keys && IsValidMemoryAccess(pd, esp)
    requires mem[esp] == SYS_REMOVE
    requires IsValidMemoryAccess(pd, esp + 4) && mem[esp + 4] != NULL
    ensures var file := mem[esp + 4];
            var ok := fs.remove(file);
            Handle(name, pd, mem, esp, fs)
            == Step(Returned(if ok then 1 else 0), Slots(esp, 2), [FsRemove(file, ok)])
  {
    var s := Slots(esp, 2);
    assert s[0] == esp && s[1] == esp + 4;
  }

  /**
   * WRITE with all three slots valid and a non-null buffer: descriptor 1
   * gives exactly one console write of exactly `size` bytes and returns
   * `size`; any other descriptor writes nothing and returns 0.
   */
  lemma WriteReturns(name: string, pd: PageDir, mem: Memory, esp: u32, fs: Filesys)
    requires pd <= mem.Keys && IsValidMemoryAccess(pd, esp)
    requires mem[esp] == SYS_WRITE
    requires IsValidMemoryAccess(pd, esp + 4) && IsValidMemoryAccess(pd, esp + 8)
    requires IsValidMemoryAccess(pd, esp + 12)
    requires mem[esp + 8] != NULL
    ensures var fd, buffer, size := mem[esp + 4], mem[esp + 8], mem[esp + 12];
            Handle(name, pd, mem, esp, fs)
            == if fd == 1 then Step(Returned(size), Slots(esp, 4), [ConsoleWrite(buffer, size)])
               else Step(Returned(0), Slots(esp, 4), [])
  {
    var s := Slots(esp, 4);
    assert s[0] == esp && s[1] == esp + 4 && s[2] == esp + 8 && s[3] == esp + 12;
  }

  /**
   * EXIT with a valid slot ends the process with the stack word as its
   * status: the same 32 bits, read as a signed `int`.
   */
  lemma ExitPassesStatus(name: string, pd: PageDir, mem: Memory, esp: u32, fs: Filesys)
    requires pd <= mem.Keys && IsValidMemoryAccess(pd, esp)
    requires mem[esp] == SYS_EXIT
    requires IsValidMemoryAccess(pd, esp + 4)
    ensures var status := ToInt32(mem[esp + 4]);
            && ToUint32(status) == mem[esp + 4]
            && Handle(name, pd, mem, esp, fs)
               == Step(Exited(status), Slots(esp, 2), [ExitLine(name, status)])
  {
    var s := Slots(esp, 2);
    assert s[0] == esp && s[1] == esp + 4;
  }

  // The handler never validates the address a pointer argument holds: the
  // re-check after reading the name is on the slot, and WRITE checks its
  // buffer only for null. A kernel address therefore reaches the services.

  const StackTop: u32 := 0xBFFF_FF00

  /** A stack whose four words are mapped, holding the given call and arguments. */
  function Stack(callNo: u32, a1: u32, a2: u32, a3: u32): (mem: Memory)
    ensures StackTop in mem && mem[StackTop] == callNo
  {
    map[StackTop := callNo, StackTop + 4 := a1, StackTop + 8 := a2, StackTop + 12 := a3]
  }

  /** WRITE to descriptor 1 with a buffer at the partition line prints kernel memory. */
  lemma KernelBufferReachesConsole(name: string, fs: Filesys)
    ensures var mem := Stack(SYS_WRITE, 1, LOADER_PHYS_BASE, 64);
            && !IsValidMemoryAccess(mem.Keys, LOADER_PHYS_BASE)
            && Handle(name, mem.Keys, mem, StackTop, fs).effects == [ConsoleWrite(LOADER_PHYS_BASE, 64)]
  {
    var mem := Stack(SYS_WRITE, 1, LOADER_PHYS_BASE, 64);
    WriteReturns(name, mem.Keys, mem, StackTop, fs);
  }

  /** CREATE with a file name at the partition line passes that address to the filesystem. */
  lemma KernelNameReachesFilesystem(name: string, fs: Filesys)
    ensures var mem := Stack(SYS_CREATE, LOADER_PHYS_BASE, 0, 0);
            && !IsValidMemoryAccess(mem.Keys, LOADER_PHYS_BASE)
            && Handle(name, mem.Keys, mem, StackTop, fs).effects
               == [FsCreate(LOADER_PHYS_BASE, 0, fs.create(LOADER_PHYS_BASE, 0))]
  {
    var mem := Stack(SYS_CREATE, LOADER_PHYS_BASE, 0, 0);
    CreateReturns(name, mem.Keys, mem, StackTop, fs);
  }
}
