/** The flag logic of the `umount` system call (`syscall/umount.rs`): the
    truncating decode of the flag word, the unsupported-flag check and the
    choice between following and not following a final symbolic link. */
module SysUmount {
  import opened Wrappers
  import opened SyscallFlags

  /** The bits of `UmountFlags`. */
  const MNT_FORCE: bv32 := 0x1
  const MNT_DETACH: bv32 := 0x2
  const MNT_EXPIRE: bv32 := 0x4
  const UMOUNT_NOFOLLOW: bv32 := 0x8

  /** The union of the defined flags, which is also the set
      `check_unsupported_flags` accepts. */
  const SUPPORTED_UMOUNT_FLAGS: bv32 := 0xF

  /** The four flags make up `SUPPORTED_UMOUNT_FLAGS`. */
  lemma SupportedIsUnion()
    ensures SUPPORTED_UMOUNT_FLAGS == MNT_FORCE | MNT_DETACH | MNT_EXPIRE | UMOUNT_NOFOLLOW
  {
  }

  /** `UmountFlags::from_bits_truncate(flags as u32)`: the four flags as
      the caller set them in the low 32 bits, and nothing else. */
  function DecodeUmountFlags(raw: bv64): (f: bv32)
    ensures f & !SUPPORTED_UMOUNT_FLAGS == 0
    ensures Contains(f, MNT_FORCE) <==> Contains(Low32(raw), MNT_FORCE)
    ensures Contains(f, MNT_DETACH) <==> Contains(Low32(raw), MNT_DETACH)
    ensures Contains(f, MNT_EXPIRE) <==> Contains(Low32(raw), MNT_EXPIRE)
    ensures Contains(f, UMOUNT_NOFOLLOW) <==> Contains(Low32(raw), UMOUNT_NOFOLLOW)
  {
    Low32(raw) & SUPPORTED_UMOUNT_FLAGS
  }

  /** `UmountFlags::check_unsupported_flags`: `EINVAL` when a bit outside
      the four flags is set. */
  function CheckUnsupportedFlags(f: bv32): (r: Result<(), Errno>)
    ensures r.Err? ==> r.error == EINVAL
    ensures r.Ok? <==> Contains(SUPPORTED_UMOUNT_FLAGS, f)
  {
    if f & !SUPPORTED_UMOUNT_FLAGS != 0 then Err(EINVAL) else Ok(())
  }

  /** The check is applied after truncation, so it can never fail. */
  lemma CheckAfterDecodeNeverFails(raw: bv64)
    ensures CheckUnsupportedFlags(DecodeUmountFlags(raw)) == Ok(())
  {
  }

  /** Which lookup resolves the path: `lookup` follows a final symbolic
      link, `lookup_no_follow` does not. */
  datatype LookupMode = Follow | NoFollow

  /** `UMOUNT_NOFOLLOW` selects `lookup_no_follow`. */
  function ModeOf(f: bv32): (m: LookupMode)
    ensures m == NoFollow <==> f & UMOUNT_NOFOLLOW != 0
  {
    if Contains(f, UMOUNT_NOFOLLOW) then NoFollow else Follow
  }

  /** The caller's bit 3 alone decides whether the final link is
      followed. */
  lemma NoFollowIsBit3(raw: bv64)
    ensures ModeOf(DecodeUmountFlags(raw)) == NoFollow <==> Low32(raw) & UMOUNT_NOFOLLOW != 0
  {
  }

  /** `sys_umount`, given the path read from user memory (or the error
      reading it), the flag word, `FsPath::new`, the two lookups and the
      unmount of the path found (`Path::umount`). The result of
      `check_unsupported_flags` is dropped; each other step's error is
      returned. */
  function SysUmount<F, P>(pathname: Result<seq<char>, Errno>, raw: bv64, fsPath: seq<char> -> Result<F, Errno>,
                           lookup: (LookupMode, F) -> Result<P, Errno>, umount: P -> Result<(), Errno>)
    : (r: Result<int, Errno>)
    ensures r.Ok? ==> r.value == 0
    ensures r.Ok? <==>
              pathname.Ok? && fsPath(pathname.value).Ok?
              && lookup(ModeOf(DecodeUmountFlags(raw)), fsPath(pathname.value).value).Ok?
              && umount(lookup(ModeOf(DecodeUmountFlags(raw)), fsPath(pathname.value).value).value).Ok?
    ensures pathname.Err? ==> r == Err(pathname.error)
    ensures pathname.Ok? && fsPath(pathname.value).Err? ==> r == Err(fsPath(pathname.value).error)
    ensures pathname.Ok? && fsPath(pathname.value).Ok?
            && lookup(ModeOf(DecodeUmountFlags(raw)), fsPath(pathname.value).value).Err? ==>
              r == Err(lookup(ModeOf(DecodeUmountFlags(raw)), fsPath(pathname.value).value).error)
    ensures pathname.Ok? && fsPath(pathname.value).Ok?
            && lookup(ModeOf(DecodeUmountFlags(raw)), fsPath(pathname.value).value).Ok?
            && umount(lookup(ModeOf(DecodeUmountFlags(raw)), fsPath(pathname.value).value).value).Err? ==>
              r == Err(umount(lookup(ModeOf(DecodeUmountFlags(raw)), fsPath(pathname.value).value).value).error)
  {
    var name :- pathname;
    var flags := DecodeUmountFlags(raw);
    var _ := CheckUnsupportedFlags(flags);
    var fp :- fsPath(name);
    var target :- lookup(ModeOf(flags), fp);
    var _ :- umount(target);
    Ok(0)
  }

  /** Only the four defined bits of the flag word affect `sys_umount`:
      any other bits may be set or clear with the same outcome. */
  lemma UmountIgnoresUnknownBits<F, P>(pathname: Result<seq<char>, Errno>, raw: bv64,
                                       fsPath: seq<char> -> Result<F, Errno>,
                                       lookup: (LookupMode, F) -> Result<P, Errno>, umount: P -> Result<(), Errno>)
    ensures SysUmount(pathname, raw, fsPath, lookup, umount)
            == SysUmount(pathname, raw & 0xF, fsPath, lookup, umount)
  {
    assert DecodeUmountFlags(raw) == DecodeUmountFlags(raw & 0xF);
  }

  /** `sys_umount` with the flag check applied to the caller's 32-bit word
      and its error returned, as the check evidently intends: an unknown
      flag bit is refused with `EINVAL` before the path is resolved. */
  function SysUmountChecked<F, P>(pathname: Result<seq<char>, Errno>, raw: bv64,
                                  fsPath: seq<char> -> Result<F, Errno>,
                                  lookup: (LookupMode, F) -> Result<P, Errno>, umount: P -> Result<(), Errno>)
    : (r: Result<int, Errno>)
    ensures pathname.Ok? && Low32(raw) & !SUPPORTED_UMOUNT_FLAGS != 0 ==> r == Err(EINVAL)
    ensures Low32(raw) & !SUPPORTED_UMOUNT_FLAGS == 0 ==> r == SysUmount(pathname, raw, fsPath, lookup, umount)
    ensures r.Ok? ==> Low32(raw) & !SUPPORTED_UMOUNT_FLAGS == 0
  {
    var name :- pathname;
    var _ :- CheckUnsupportedFlags(Low32(raw));
    SysUmount(pathname, raw, fsPath, lookup, umount)
  }

  /** Bit 4 is no `umount` flag, yet a call that sets it goes ahead and
      unmounts; the corrected call refuses it. */
  lemma UnknownFlagAccepted()
    ensures SysUmount(Ok("/mnt"), 0x10, (d: seq<char>) => Ok(d), (m: LookupMode, fp: seq<char>) => Ok(fp),
                      (p: seq<char>) => Ok(())) == Ok(0)
    ensures SysUmountChecked(Ok("/mnt"), 0x10, (d: seq<char>) => Ok(d), (m: LookupMode, fp: seq<char>) => Ok(fp),
                             (p: seq<char>) => Ok(())) == Err(EINVAL)
  {
  }
}
