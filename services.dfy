/**
 * The service routines the system-call handler dispatches to, and the
 * observable effects they have: calls into the filesystem, console writes
 * and the exit line.
 */
module Services {
  import opened Words

  /**
   * What the filesystem answers, per file-name pointer. `filesys_create`,
   * `filesys_remove` and `filesys_open` are collaborators whose internals are
   * not part of this model; only their success or failure matters here.
   */
  datatype Filesys = Filesys(
    create: (u32, u32) -> bool,
    remove: u32 -> bool,
    open: u32 -> bool)

  /** One observable effect, in the order the handler performs them. */
  datatype Effect =
    | FsCreate(file: u32, initialSize: u32, ok: bool)
    | FsRemove(file: u32, ok: bool)
    | FsOpen(file: u32, ok: bool)
    | ConsoleWrite(buffer: u32, size: u32)   // one `putbuf (buffer, size)`
    | ExitLine(name: string, status: i32)    // "name: exit(status)"

  /** Effects that reach the filesystem or the console. */
  predicate IsServiceEffect(e: Effect) {
    !e.ExitLine?
  }

  /**
   * `sys_create`: one call to the filesystem, whose answer is the result.
   * Creating a file does not open it.
   */
  function SysCreate(fs: Filesys, file: u32, initialSize: u32): (r: (bool, seq<Effect>))
    ensures r.0 <==> fs.create(file, initialSize)
    ensures r.1 == [FsCreate(file, initialSize, r.0)]
    ensures forall i :: 0 <= i < |r.1| ==> !r.1[i].FsOpen?
  {
    var status := fs.create(file, initialSize);
    (status, [FsCreate(file, initialSize, status)])
  }

  /** `sys_remove`: one call to the filesystem, whose answer is the result. */
  function SysRemove(fs: Filesys, file: u32): (r: (bool, seq<Effect>))
    ensures r.0 <==> fs.remove(file)
    ensures r.1 == [FsRemove(file, r.0)]
  {
    var status := fs.remove(file);
    (status, [FsRemove(file, status)])
  }

  /**
   * `sys_open`: there is no descriptor table; every successful open answers
   * the same descriptor 3, a failed one -1. The console descriptors 0 and 1
   * are never returned.
   */
  function SysOpen(fs: Filesys, name: u32): (r: (i32, seq<Effect>))
    ensures r.0 == 3 || r.0 == -1
    ensures r.0 == -1 <==> !fs.open(name)
    ensures r.0 != 0 && r.0 != 1
    ensures r.1 == [FsOpen(name, fs.open(name))]
  {
    var found := fs.open(name);
    var fd := if found then 3 else -1;
    (fd, [FsOpen(name, found)])
  }

  /**
   * `sys_write`: descriptor 1 writes the whole buffer to the console in one
   * call and reports `size` bytes written; any other descriptor writes
   * nothing and reports 0. The result is `size` converted to `int`.
   */
  function SysWrite(fd: i32, buffer: u32, size: u32): (r: (i32, seq<Effect>))
    ensures fd == 1 ==> r.1 == [ConsoleWrite(buffer, size)] && ToUint32(r.0) == size
    ensures fd != 1 ==> r.0 == 0 && r.1 == []
  {
    if fd == 1 then
      (ToInt32(size), [ConsoleWrite(buffer, size)])
    else
      (0, [])
  }

  /** The part of `struct thread` the handler touches. */
  class Thread {
    const name: string
    const pagedir: set<u32>
    var exitStatus: i32

    constructor (name: string, pagedir: set<u32>, exitStatus: i32)
      ensures this.name == name && this.pagedir == pagedir
      ensures this.exitStatus == exitStatus
    {
      this.name := name;
      this.pagedir := pagedir;
      this.exitStatus := exitStatus;
    }
  }

  /**
   * `sys_exit`: records the status on the thread and prints the exit line.
   * What follows, `thread_exit`, does not return; callers treat the call as
   * the end of the process.
   */
  method SysExit(t: Thread, status: i32) returns (line: Effect)
    modifies t`exitStatus
    ensures t.exitStatus == status
    ensures line == ExitLine(t.name, status)
  {
    t.exitStatus := status;
    line := ExitLine(t.name, status);
  }
}
