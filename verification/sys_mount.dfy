/** The flag logic of the `mount` system call (`syscall/mount.rs`): the
    truncating decode of the flag word, the handlers it triggers and the
    error paths before them. */
module SysMount {
  import opened Wrappers
  import opened SyscallFlags

  /** The bits of `MountFlags`. Bit 9 is not defined, and `MS_VERBOSE`
      and `MS_SILENT` are the same bit. */
  const MS_RDONLY: bv32 := 1
  const MS_NOSUID: bv32 := 1 << 1
  const MS_NODEV: bv32 := 1 << 2
  const MS_NOEXEC: bv32 := 1 << 3
  const MS_SYNCHRONOUS: bv32 := 1 << 4
  const MS_REMOUNT: bv32 := 1 << 5
  const MS_MANDLOCK: bv32 := 1 << 6
  const MS_DIRSYNS: bv32 := 1 << 7
  const MS_NOSYMFOLLOW: bv32 := 1 << 8
  const MS_NOATIME: bv32 := 1 << 10
  const MS_NODIRATIME: bv32 := 1 << 11
  const MS_BIND: bv32 := 1 << 12
  const MS_MOVE: bv32 := 1 << 13
  const MS_REC: bv32 := 1 << 14
  const MS_VERBOSE: bv32 := 1 << 15
  const MS_SILENT: bv32 := 1 << 15
  const MS_POSIXACL: bv32 := 1 << 16
  const MS_UNBINDABLE: bv32 := 1 << 17
  const MS_PRIVATE: bv32 := 1 << 18
  const MS_SLAVE: bv32 := 1 << 19
  const MS_SHARED: bv32 := 1 << 20
  const MS_RELATIME: bv32 := 1 << 21
  const MS_KERNMOUNT: bv32 := 1 << 22

  /** Every flag `MountFlags` defines. */
  const MOUNT_FLAGS: seq<bv32> :=
    [MS_RDONLY, MS_NOSUID, MS_NODEV, MS_NOEXEC, MS_SYNCHRONOUS, MS_REMOUNT, MS_MANDLOCK,
     MS_DIRSYNS, MS_NOSYMFOLLOW, MS_NOATIME, MS_NODIRATIME, MS_BIND, MS_MOVE, MS_REC,
     MS_VERBOSE, MS_SILENT, MS_POSIXACL, MS_UNBINDABLE, MS_PRIVATE, MS_SLAVE, MS_SHARED,
     MS_RELATIME, MS_KERNMOUNT]

  /** The union of the defined flags (`MountFlags::all()`). */
  const ALL_MOUNT_FLAGS: bv32 := 0x7F_FDFF

  /** `ALL_MOUNT_FLAGS` is the union of the defined flags and contains
      each of them. */
  lemma AllMountFlags(i: nat)
    requires i < |MOUNT_FLAGS|
    ensures ALL_MOUNT_FLAGS == MS_RDONLY | MS_NOSUID | MS_NODEV | MS_NOEXEC | MS_SYNCHRONOUS | MS_REMOUNT
                               | MS_MANDLOCK | MS_DIRSYNS | MS_NOSYMFOLLOW | MS_NOATIME | MS_NODIRATIME | MS_BIND
                               | MS_MOVE | MS_REC | MS_VERBOSE | MS_SILENT | MS_POSIXACL | MS_UNBINDABLE
                               | MS_PRIVATE | MS_SLAVE | MS_SHARED | MS_RELATIME | MS_KERNMOUNT
    ensures MOUNT_FLAGS[i] & !ALL_MOUNT_FLAGS == 0
  {
  }

  /** `MountFlags::from_bits_truncate(flags as u32)`: nothing outside the
      defined flags survives. */
  function DecodeMountFlags(raw: bv64): (f: bv32)
    ensures f & !ALL_MOUNT_FLAGS == 0
  {
    Low32(raw) & ALL_MOUNT_FLAGS
  }

  /** Masking with `ALL_MOUNT_FLAGS` keeps a flag that lies inside it
      exactly when it was set. */
  lemma MaskKeeps(bits: bv32, flag: bv32)
    requires flag & !ALL_MOUNT_FLAGS == 0
    ensures Contains(bits & ALL_MOUNT_FLAGS, flag) <==> Contains(bits, flag)
  {
  }

  /** Each defined flag is set after decoding exactly when the caller set
      it in the low 32 bits. */
  lemma DecodeKeepsDefined(raw: bv64, i: nat)
    requires i < |MOUNT_FLAGS|
    ensures Contains(DecodeMountFlags(raw), MOUNT_FLAGS[i]) <==> Contains(Low32(raw), MOUNT_FLAGS[i])
  {
    AllMountFlags(i);
    MaskKeeps(Low32(raw), MOUNT_FLAGS[i]);
  }

  /** The undefined bit 9 and the bits from 23 up are dropped, and so is
      the upper half of the 64-bit argument. */
  lemma DecodeDropsUndefined(raw: bv64)
    ensures DecodeMountFlags(raw) & (1 << 9) == 0
    ensures DecodeMountFlags(raw) >> 23 == 0
    ensures DecodeMountFlags(raw) == DecodeMountFlags(raw & 0xFFFF_FFFF)
  {
  }

  /** Decoding an already decoded word changes nothing. */
  lemma DecodeIdempotent(raw: bv64)
    ensures DecodeMountFlags(DecodeMountFlags(raw) as bv64) == DecodeMountFlags(raw)
  {
  }

  /** The work `sys_mount` hands on, one handler per `if` of its body. */
  datatype Handler = ReconfigureMnt | Remount | Loopback | ChangeType | MoveMountOld | NewMount

  /** `[h]` when `c` holds, else nothing: one `if` of `sys_mount`. */
  function When(c: bool, h: Handler): (hs: seq<Handler>)
    ensures forall x :: x in hs <==> c && x == h
    ensures |hs| <= 1
  {
    if c then [h] else []
  }

  /** The handlers whose tests came out `c0` … `c4`, in source order,
      followed by `do_new_mount`. */
  function Chain(c0: bool, c1: bool, c2: bool, c3: bool, c4: bool): (hs: seq<Handler>) {
    When(c0, ReconfigureMnt) + When(c1, Remount) + When(c2, Loopback) + When(c3, ChangeType)
    + When(c4, MoveMountOld) + [NewMount]
  }

  /** The handlers `sys_mount` runs for the decoded flags `f`, in the order
      it runs them. The tests are independent `if`s, not alternatives, and
      `do_new_mount` runs whatever the flags. */
  function Handlers(f: bv32): (hs: seq<Handler>)
    ensures |hs| > 0 && hs[|hs| - 1] == NewMount
  {
    Chain(Contains(f, MS_REMOUNT) && Contains(f, MS_BIND), Contains(f, MS_REMOUNT), Contains(f, MS_BIND),
          Contains(f, MS_SHARED) || Contains(f, MS_PRIVATE) || Contains(f, MS_SLAVE) || Contains(f, MS_UNBINDABLE),
          Contains(f, MS_MOVE))
  }

  /** The flag condition under which each handler is wanted, stated per
      handler on the bits and without reference to the others. */
  predicate Wanted(f: bv32, h: Handler) {
    match h
    case ReconfigureMnt => f & (MS_REMOUNT | MS_BIND) == MS_REMOUNT | MS_BIND
    case Remount => f & MS_REMOUNT != 0
    case Loopback => f & MS_BIND != 0
    case ChangeType => f & (MS_SHARED | MS_PRIVATE | MS_SLAVE | MS_UNBINDABLE) != 0
    case MoveMountOld => f & MS_MOVE != 0
    case NewMount => true
  }

  /** Where each handler's `if` stands in `sys_mount`. */
  function Rank(h: Handler): (n: nat) {
    match h
    case ReconfigureMnt => 0
    case Remount => 1
    case Loopback => 2
    case ChangeType => 3
    case MoveMountOld => 4
    case NewMount => 5
  }

  /** Strictly increasing in source order, so no handler twice. */
  predicate Ascending(hs: seq<Handler>) {
    forall i, j :: 0 <= i < j < |hs| ==> Rank(hs[i]) < Rank(hs[j])
  }

  /** Every handler of `hs` comes before `h` in source order. */
  predicate Before(hs: seq<Handler>, h: Handler) {
    forall i :: 0 <= i < |hs| ==> Rank(hs[i]) < Rank(h)
  }

  /** Appending a later handler keeps the order. */
  lemma Push(hs: seq<Handler>, c: bool, h: Handler, next: Handler)
    requires Ascending(hs) && Before(hs, h) && Rank(h) < Rank(next)
    ensures Ascending(hs + When(c, h)) && Before(hs + When(c, h), next)
  {
  }

  /** Appending the last handler keeps the order. */
  lemma PushLast(hs: seq<Handler>, h: Handler)
    requires Ascending(hs) && Before(hs, h)
    ensures Ascending(hs + [h])
  {
  }

  /** Any outcome of the five tests yields handlers in source order. */
  lemma ChainAscending(c0: bool, c1: bool, c2: bool, c3: bool, c4: bool)
    ensures Ascending(Chain(c0, c1, c2, c3, c4))
  {
    var a := When(c0, ReconfigureMnt);
    assert Ascending(a) && Before(a, Remount);
    Push(a, c1, Remount, Loopback);
    Push(a + When(c1, Remount), c2, Loopback, ChangeType);
    Push(a + When(c1, Remount) + When(c2, Loopback), c3, ChangeType, MoveMountOld);
    Push(a + When(c1, Remount) + When(c2, Loopback) + When(c3, ChangeType), c4, MoveMountOld, NewMount);
    PushLast(a + When(c1, Remount) + When(c2, Loopback) + When(c3, ChangeType) + When(c4, MoveMountOld), NewMount);
  }

  /** A handler is in the chain exactly when its own test came out true. */
  lemma ChainMembers(c0: bool, c1: bool, c2: bool, c3: bool, c4: bool, h: Handler)
    ensures h in Chain(c0, c1, c2, c3, c4) <==>
              match h
              case ReconfigureMnt => c0
              case Remount => c1
              case Loopback => c2
              case ChangeType => c3
              case MoveMountOld => c4
              case NewMount => true
  {
  }

  /** The `contains` tests of `sys_mount` read as conditions on the bits. */
  lemma TestsOnBits(f: bv32)
    ensures Contains(f, MS_REMOUNT) && Contains(f, MS_BIND) <==> f & (MS_REMOUNT | MS_BIND) == MS_REMOUNT | MS_BIND
    ensures Contains(f, MS_REMOUNT) <==> f & MS_REMOUNT != 0
    ensures Contains(f, MS_BIND) <==> f & MS_BIND != 0
    ensures Contains(f, MS_MOVE) <==> f & MS_MOVE != 0
    ensures (Contains(f, MS_SHARED) || Contains(f, MS_PRIVATE) || Contains(f, MS_SLAVE) || Contains(f, MS_UNBINDABLE))
            <==> f & (MS_SHARED | MS_PRIVATE | MS_SLAVE | MS_UNBINDABLE) != 0
  {
  }

  /** The handlers run are exactly the wanted ones, each once, in source
      order. */
  lemma HandlersAreWanted(f: bv32)
    ensures forall h :: h in Handlers(f) <==> Wanted(f, h)
    ensures Ascending(Handlers(f))
  {
    TestsOnBits(f);
    var c0, c1, c2 := Contains(f, MS_REMOUNT) && Contains(f, MS_BIND), Contains(f, MS_REMOUNT), Contains(f, MS_BIND);
    var c3 := Contains(f, MS_SHARED) || Contains(f, MS_PRIVATE) || Contains(f, MS_SLAVE) || Contains(f, MS_UNBINDABLE);
    var c4 := Contains(f, MS_MOVE);
    ChainAscending(c0, c1, c2, c3, c4);
    forall h ensures h in Handlers(f) <==> Wanted(f, h) {
      ChainMembers(c0, c1, c2, c3, c4, h);
    }
  }

  /** `MS_REMOUNT | MS_BIND` runs the reconfigure, remount and loopback
      handlers and then `do_new_mount`: no flag excludes another. */
  lemma RemountBindRunsAll()
    ensures Handlers(DecodeMountFlags((MS_REMOUNT | MS_BIND) as bv64)) == [ReconfigureMnt, Remount, Loopback, NewMount]
  {
  }

  /** `FsPath::new(AT_FDCWD, dirname)` followed by the calling task's `lookup`:
      the target of the mount, or the first error on the way. */
  function Resolve<F, P>(name: Result<seq<char>, Errno>, fsPath: seq<char> -> Result<F, Errno>,
                         lookup: F -> Result<P, Errno>): (r: Result<P, Errno>)
    ensures r.Ok? <==> name.Ok? && fsPath(name.value).Ok? && lookup(fsPath(name.value).value).Ok?
    ensures name.Err? ==> r == Err(name.error)
    ensures name.Ok? && fsPath(name.value).Err? ==> r == Err(fsPath(name.value).error)
    ensures name.Ok? && fsPath(name.value).Ok? ==> r == lookup(fsPath(name.value).value)
  {
    var d :- name;
    var fp :- fsPath(d);
    lookup(fp)
  }

  /** What a `mount` call did: the handlers it ran, the outcome of
      `do_new_mount` if it was reached, and what it returned. */
  datatype MountCall = MountCall(ran: seq<Handler>, newMount: Option<Result<(), Errno>>, ret: Result<int, Errno>)

  /** `sys_mount`, given the two strings read from user memory (or the
      error reading them), the flag word, path resolution and the mount of
      the file system onto the target (`target_path.mount`). The outcome of
      `do_new_mount` is dropped: once the target is found the call returns
      0 whether or not the mount happened. */
  function SysMount<F, P>(devname: Result<seq<char>, Errno>, dirname: Result<seq<char>, Errno>, raw: bv64,
                          fsPath: seq<char> -> Result<F, Errno>, lookup: F -> Result<P, Errno>,
                          mount: P -> Result<(), Errno>): (r: MountCall)
    ensures r.ret.Ok? <==> devname.Ok? && Resolve(dirname, fsPath, lookup).Ok?
    ensures r.ret.Ok? ==> r.ret.value == 0 && r.ran == Handlers(DecodeMountFlags(raw))
                          && r.newMount == Some(mount(Resolve(dirname, fsPath, lookup).value))
    ensures devname.Err? ==> r == MountCall([], None, Err(devname.error))
    ensures devname.Ok? && Resolve(dirname, fsPath, lookup).Err? ==>
              r == MountCall([], None, Err(Resolve(dirname, fsPath, lookup).error))
  {
    if devname.Err? then MountCall([], None, Err(devname.error))
    else
      match Resolve(dirname, fsPath, lookup)
      case Err(e) => MountCall([], None, Err(e))
      case Ok(target) => MountCall(Handlers(DecodeMountFlags(raw)), Some(mount(target)), Ok(0))
  }

  /** `sys_mount` with the outcome of `do_new_mount` propagated, as its
      signature (`-> Result<()>`) evidently intends: the call succeeds only
      when the file system was mounted, and otherwise returns the mount's
      error. */
  function SysMountChecked<F, P>(devname: Result<seq<char>, Errno>, dirname: Result<seq<char>, Errno>, raw: bv64,
                                 fsPath: seq<char> -> Result<F, Errno>, lookup: F -> Result<P, Errno>,
                                 mount: P -> Result<(), Errno>): (r: MountCall)
    ensures r.ret.Ok? <==> r.newMount.Some? && r.newMount.value.Ok?
    ensures r.newMount.Some? && r.newMount.value.Err? ==> r.ret == Err(r.newMount.value.error)
  {
    var call := SysMount(devname, dirname, raw, fsPath, lookup, mount);
    if call.newMount.Some? && call.newMount.value.Err? then call.(ret := Err(call.newMount.value.error))
    else call
  }

  /** The corrected call runs the same handlers and reaches the same mount
      as the original; the two answers differ only when the mount failed. */
  lemma CheckedAgrees<F, P>(devname: Result<seq<char>, Errno>, dirname: Result<seq<char>, Errno>, raw: bv64,
                            fsPath: seq<char> -> Result<F, Errno>, lookup: F -> Result<P, Errno>,
                            mount: P -> Result<(), Errno>)
    ensures var a := SysMount(devname, dirname, raw, fsPath, lookup, mount);
            var b := SysMountChecked(devname, dirname, raw, fsPath, lookup, mount);
            a.ran == b.ran && a.newMount == b.newMount
            && (a.ret != b.ret <==> a.newMount.Some? && a.newMount.value.Err?)
  {
  }

  /** A failed mount is reported as success: the target resolves, the
      mount onto it fails with `ENOTDIR`, and `sys_mount` still returns 0,
      where the corrected call returns the error. */
  lemma FailedMountReturnsZero()
    ensures var call := SysMount(Ok("vext2"), Ok("/mnt"), 0, (d: seq<char>) => Ok(d),
                                 (fp: seq<char>) => Ok(fp), (p: seq<char>) => Err(ENOTDIR));
            call.newMount == Some(Err(ENOTDIR)) && call.ret == Ok(0)
    ensures SysMountChecked(Ok("vext2"), Ok("/mnt"), 0, (d: seq<char>) => Ok(d),
                            (fp: seq<char>) => Ok(fp), (p: seq<char>) => Err(ENOTDIR)).ret == Err(ENOTDIR)
  {
  }
}
