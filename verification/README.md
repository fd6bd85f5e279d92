# Mount tree, namespaces and interface selection of the Asterinas kernel

This project is a Dafny model of a small core of the Asterinas kernel (`aster-nix`), together with proofs about that model. It covers these parts:

- **The mount tree** (`fs/utils/mount.rs`).
  - Mount nodes live in an arena `Store` (a `map<NodeId, Node>` plus the next free id). This makes `Arc` identity into id equality.
  - Each node holds a root dentry, an optional mountpoint dentry, a filesystem id, an optional parent id and a `children` map. The map goes from mountpoint dentry to child id. A dentry is its own key.
  - The arena invariant `Wf` says three things: every child entry names a live node created after its parent; that node records the entry's key as its mountpoint; and it records the owner as its parent.
  - Modelled operations: `new_root`, `clone_mnt`, `mount`, `umount`, `get`, `sync` and `copy_tree`.
  - `copy_tree` is an imperative method with the same two explicit stacks as the source. It also moves the calling task's root and working directory onto the clones.
- **Mount namespaces** (`MntNamespace`), the **namespace proxy** (`Nsproxy`) and **network namespaces** (`NetNamespace`). The last is an append-only list of interfaces.
- **Flag handling of `mount` and `umount`**:
  - the truncating `bitflags` decode of the 64-bit flag argument;
  - the handlers `sys_mount` triggers;
  - the unsupported-flag check of `sys_umount`;
  - the choice between `lookup` and `lookup_no_follow`.
- **Interface selection for IP sockets** (`net/socket/ip/common.rs`): first-match searches by IPv4 address over a namespace's interfaces.

Some behaviour comes from outside the modelled code. Each such piece is a parameter:

- whether a dentry is a directory;
- a filesystem's own `sync`, answered once per mount that calls it;
- reading strings from user memory;
- `FsPath::new`, `lookup` and `lookup_no_follow`;
- mounting or unmounting a resolved path;
- `BindPortConfig::new` and `Iface::bind_socket`.

Behaviour of the code worth stating plainly:

- **`sys_mount` runs independent `if`s, not a first-match dispatch.** `MS_REMOUNT | MS_BIND` runs the reconfigure, remount and loopback handlers. `do_new_mount` runs for every flag word.
- **`sys_umount` truncates before checking.** It ignores the result of `check_unsupported_flags`. An unknown flag bit is therefore never refused.
- **`clone_mnt` copies the source's mountpoint dentry.** It does not reset it to none. Only the parent is taken from the caller.
- **The final root and working directory after `copy_tree` come from the last matching clone.** Each time a clone is made whose original has the same root dentry as the mount the path lies in, the path moves onto that clone. The last such clone wins. In the model this is the matching clone with the largest id.

## Model

| member | source | states |
|---|---|---|
| MountTree.NewRoot | kernel/aster-nix/src/fs/utils/mount.rs:31-51 | The new root node is fresh, has no parent, no mountpoint and no children, and carries the given filesystem and root dentry. All other nodes are unchanged and the arena invariant holds. |
| MountTree.CloneMnt | kernel/aster-nix/src/fs/utils/mount.rs:54-66 | The clone has the source's root dentry, mountpoint and filesystem. It hangs under the given parent and has no children. |
| MountTree.Mount | kernel/aster-nix/src/fs/utils/mount.rs:151-167 | EINVAL exactly when the mountpoint is in another mount, checked first. ENOTDIR when the dentry is not a directory. Both errors leave the store unchanged. On success, a fresh child (parent `self`, mountpoint the dentry, no children) is entered under the dentry's key, replacing any previous occupant. The other keys and nodes are unchanged, and `get` then returns the new child. |
| MountTree.Umount | kernel/aster-nix/src/fs/utils/mount.rs:172-183 | EINVAL for a foreign mountpoint, then ENOENT when no child is mounted there, with no change in either case. On success, exactly that key is removed and the removed child is returned. Every other node, including the child and its subtree, is unchanged. |
| MountTree.Get | kernel/aster-nix/src/fs/utils/mount.rs:186-188 | `get(d)` finds a mount iff a child is mounted on `d`, and it is the child entered under that key. |
| MountTree.GetFindsChild | kernel/aster-nix/src/fs/utils/mount.rs:186-188 | In a well-formed tree, the mount `get(d)` finds is a live node created after `self`, with mountpoint `d` and parent `self`. |
| MountTree.MountThenUmount | kernel/aster-nix/src/fs/utils/mount.rs:151-183 | Unmounting at a free mountpoint right after mounting there returns the mounted child and restores the mount's children map. No original node changes. |
| MountTree.MountReplaces | kernel/aster-nix/src/fs/utils/mount.rs:159-188 | A second mount on an occupied mountpoint replaces the first child under the same keys. `get` returns the second child, and the first child's node is left as it was. |
| MountTree.KidsFacts | kernel/aster-nix/src/fs/utils/mount.rs:202-205 | `children.values()` lists each child once, in key order. Each listed child is a live node created after its parent, whose parent is that node. |
| MountSync.Sync | kernel/aster-nix/src/fs/utils/mount.rs:201-210 | A successful `sync` ends with the node's own filesystem, which flushed without error. `SyncIsPostOrderRun` gives the full flush order. |
| MountSync.RunInOrderOutcome | kernel/aster-nix/src/fs/utils/mount.rs:203-208 | A sync run over a list flushes a prefix of it. It succeeds iff every flush succeeds. Otherwise it stops at the first failure and returns that error. |
| MountSync.SyncIsPostOrderRun | kernel/aster-nix/src/fs/utils/mount.rs:201-210 | `sync` behaves exactly like flushing, one by one with early abort, the post-order list of the subtree: children in key order, each child's subtree before the node itself. |
| MountSync.SyncSucceedsIffAllFlush | kernel/aster-nix/src/fs/utils/mount.rs:201-210 | `sync` succeeds iff the filesystem's `sync`, called from each mount of the subtree in turn, succeeds every time. When it succeeds it has flushed the whole post-order list. |
| MountSync.SyncWithinSubtree | kernel/aster-nix/src/fs/utils/mount.rs:201-210 | `sync` flushes only mounts of the subtree, each at most once. |
| MountSync.SyncChildrenFirst | kernel/aster-nix/src/fs/utils/mount.rs:201-210 | Every mount below a flushed mount was itself flushed successfully, and at an earlier position in the flush order. |
| Subtree.PostOrderMembers | kernel/aster-nix/src/fs/utils/mount.rs:202-208 | The post-order list of a node holds exactly the nodes reachable from it through children maps. |
| Subtree.PostOrderDistinct | kernel/aster-nix/src/fs/utils/mount.rs:202-208 | The post-order list holds no node twice. |
| Subtree.PostOrderDescendantsFirst | kernel/aster-nix/src/fs/utils/mount.rs:202-208 | In the post-order list, every proper descendant of a node comes before that node. |
| MountCopy.CopyStart | kernel/aster-nix/src/fs/utils/mount.rs:72-97 | After the root clone is made, the paths are retargeted and both stacks are initialised, the loop invariant holds. Invariant: the stacks are equally long and position-wise original/clone, originals are untouched, the clones so far are copies, and root and cwd track the last matching clone. |
| MountCopy.CloneChild | kernel/aster-nix/src/fs/utils/mount.rs:102-134 | One pass of the inner loop for one child: clone it under the parent's clone with the same key, push the pair onto the stacks and retarget the paths. The loop invariant is kept, one more child entry is copied, and the clone is the fresh id. |
| MountCopy.CopyChildren | kernel/aster-nix/src/fs/utils/mount.rs:102-135 | The inner loop copies every children entry of the popped original under its clone, keeping the loop invariant. Both stacks keep their old entries. The stack of originals gains the original's children in key order, one clone-stack entry per child. |
| MountCopy.KeysInOrder | kernel/aster-nix/src/fs/utils/mount.rs:102 | The keys are those of the children map, each once, in ascending order, as a `BTreeMap` yields them. |
| MountCopy.CopyNext | kernel/aster-nix/src/fs/utils/mount.rs:99-136 | One pass of the outer loop pops one original and its clone and copies its children. The invariant is kept, and the entries below the popped one stay on both stacks. The number of originals not yet visited strictly falls, so the loop ends. |
| MountCopy.CopyEnd | kernel/aster-nix/src/fs/utils/mount.rs:99-137 | When the stack is empty, the new nodes are exactly the subtree of the returned clone. That clone is a copy of the original subtree, key for key, with the same mounts. Root and cwd end on the last matching clone, with the same dentry. |
| MountCopy.CopyTree | kernel/aster-nix/src/fs/utils/mount.rs:69-137 | `copy_tree` returns a fresh parentless node whose subtree is a copy of the original: the same keys at every level, and the same root dentry, mountpoint and filesystem at every node. The original nodes are unchanged. The new nodes are exactly that subtree. If some copied original shares the root dentry of the mount the root (or cwd) lies in, that path moves, with its dentry, onto the last such clone; otherwise it is unchanged. |
| MntNamespace.New | kernel/aster-nix/src/process/namespace/mnt_namespace.rs:19-25 | `new(n).root()` is `n`. |
| MntNamespace.CopyMntNs | kernel/aster-nix/src/process/namespace/mnt_namespace.rs:27-31 | The new namespace's root is a fresh parentless node, distinct from the old root, whose subtree copies the old root's subtree. The old tree is unchanged, and the calling task's root and cwd follow as for `copy_tree`. |
| Nsproxy.New | kernel/aster-nix/src/process/namespace/mod.rs:22-32 | `mnt_ns()` and `net_ns()` of a new proxy return the handles it was built with. |
| Nsproxy.SetNamespaces | kernel/aster-nix/src/process/namespace/mod.rs:34-38 | After `set_namespaces(p)`, both handles are `p`'s. |
| Nsproxy.SetNamespacesForgets | kernel/aster-nix/src/process/namespace/mod.rs:34-38 | The result does not depend on the handles held before: the update is whole. |
| Nsproxy.SetNamespacesIdempotent | kernel/aster-nix/src/process/namespace/mod.rs:34-38 | Applying the same proxy twice gives the same state as applying it once. |
| NetNamespace.New | kernel/aster-nix/src/net/namespace/mod.rs:19-21 | A new namespace has no interfaces. |
| NetNamespace.AddIface | kernel/aster-nix/src/net/namespace/mod.rs:32-34 | `add_iface` appends exactly one interface at the end and keeps the earlier ones in place. |
| NetNamespace.AddAllInOrder | kernel/aster-nix/src/net/namespace/mod.rs:32-38 | After a series of `add_iface` calls, `ifaces()` lists the earlier interfaces followed by the added ones in insertion order. |
| NetNamespace.NewWithLoopback | kernel/aster-nix/src/net/namespace/mod.rs:23-30 | The new namespace holds exactly one interface, the returned loopback. The global interface list grows by that one interface at the end. |
| IpCommon.FirstServing | kernel/aster-nix/src/net/socket/ip/common.rs:19-27 | The search finds a position iff some interface has the IPv4 address; interfaces without an address never match. The position found serves the address, and no earlier one does. |
| IpCommon.FirstServingStable | kernel/aster-nix/src/net/socket/ip/common.rs:19-27 | Appending interfaces does not change the first match once there is one. |
| IpCommon.GetIfaceToBind | kernel/aster-nix/src/net/socket/ip/common.rs:13-28 | Some iff an interface of the namespace has the address. The result has that address and is the first such interface in iteration order. |
| IpCommon.BindingSurvivesAdds | kernel/aster-nix/src/net/socket/ip/common.rs:13-28 | Interfaces added to the namespace later never change the interface an address binds to. |
| IpCommon.GetEphemeralIface | kernel/aster-nix/src/net/socket/ip/common.rs:33-50 | The first matching interface of the namespace if there is one, and otherwise entry 0 of the global list. |
| IpCommon.BindSocket | kernel/aster-nix/src/net/socket/ip/common.rs:52-69 | With no interface for the address, EADDRNOTAVAIL with the unbound socket handed back. A port-configuration error is returned with the socket handed back. Otherwise the chosen interface's bind result is returned. |
| IpCommon.GetEphemeralEndpoint | kernel/aster-nix/src/net/socket/ip/common.rs:71-75 | The endpoint has port 0 and the IPv4 address of the interface chosen by `get_ephemeral_iface`. When some interface serves the remote address, that address is the one used. |
| SysMount.AllMountFlags | kernel/aster-nix/src/syscall/mount.rs:96-122 | The union of the defined mount flags is `0x7FFDFF`, and it contains every defined flag. |
| SysMount.DecodeMountFlags | kernel/aster-nix/src/syscall/mount.rs:29 | No bit outside the defined flags survives decoding. |
| SysMount.DecodeKeepsDefined | kernel/aster-nix/src/syscall/mount.rs:29 | Each defined flag is set after decoding exactly when the caller set it in the low 32 bits. |
| SysMount.DecodeDropsUndefined | kernel/aster-nix/src/syscall/mount.rs:96-122 | Decoding drops the undefined bit 9, every bit from 23 up and the upper half of the 64-bit argument. |
| SysMount.DecodeIdempotent | kernel/aster-nix/src/syscall/mount.rs:29 | Decoding an already decoded word changes nothing. |
| SysMount.Handlers | kernel/aster-nix/src/syscall/mount.rs:39-63 | Whatever the flags, the handler sequence is non-empty and ends with `do_new_mount`. |
| SysMount.HandlersAreWanted | kernel/aster-nix/src/syscall/mount.rs:39-63 | The handlers run are exactly those whose own flag condition holds. For example, change-type runs iff one of SHARED, PRIVATE, SLAVE or UNBINDABLE is set. Each runs once, in source order. |
| SysMount.RemountBindRunsAll | kernel/aster-nix/src/syscall/mount.rs:39-49 | `MS_REMOUNT \| MS_BIND` runs reconfigure, then remount, then loopback, then `do_new_mount`. |
| SysMount.Resolve | kernel/aster-nix/src/syscall/mount.rs:32-37 | Resolving the target succeeds iff the name was read, `FsPath::new` succeeds and the lookup succeeds. A read error, then a `FsPath::new` error, is returned as is; otherwise the lookup's own outcome is. |
| SysMount.SysMount | kernel/aster-nix/src/syscall/mount.rs:17-65 | An error reading the device name, reading the directory name, building the path or looking it up is returned before any handler runs. Once the target is found, the handlers for the decoded flags run, the mount onto the target is attempted, and the call returns 0 whatever the mount's outcome. |
| SysMount.SysMountChecked | kernel/aster-nix/src/syscall/mount.rs:87-94 | Corrected: the call succeeds iff the mount onto the target succeeded, and otherwise returns the mount's error. |
| SysMount.CheckedAgrees | kernel/aster-nix/src/syscall/mount.rs:63-64 | The corrected and the original call run the same handlers and reach the same mount. Their answers differ exactly when the mount failed. |
| SysMount.FailedMountReturnsZero | kernel/aster-nix/src/syscall/mount.rs:63-64 | A concrete call whose mount fails with ENOTDIR returns 0, while the corrected call returns ENOTDIR. |
| SysUmount.SupportedIsUnion | kernel/aster-nix/src/syscall/umount.rs:41-55 | The supported set `0xF` is FORCE \| DETACH \| EXPIRE \| NOFOLLOW. |
| SysUmount.DecodeUmountFlags | kernel/aster-nix/src/syscall/umount.rs:19 | Decoding keeps each of 0x1, 0x2, 0x4 and 0x8 exactly as the caller set it and drops every other bit. |
| SysUmount.CheckUnsupportedFlags | kernel/aster-nix/src/syscall/umount.rs:50-62 | The only error is EINVAL. The check passes iff the flag set lies inside FORCE \| DETACH \| EXPIRE \| NOFOLLOW. |
| SysUmount.CheckAfterDecodeNeverFails | kernel/aster-nix/src/syscall/umount.rs:19-22 | Applied to a decoded word, the check always passes. |
| SysUmount.NoFollowIsBit3 | kernel/aster-nix/src/syscall/umount.rs:28-34 | `lookup_no_follow` is chosen iff the caller set bit 3 (`UMOUNT_NOFOLLOW`). |
| SysUmount.ModeOf | kernel/aster-nix/src/syscall/umount.rs:28-34 | `lookup_no_follow` is used iff bit 3 (`UMOUNT_NOFOLLOW`) of the decoded flags is set; otherwise `lookup`. |
| SysUmount.SysUmount | kernel/aster-nix/src/syscall/umount.rs:15-39 | The call returns 0 iff reading the path, building it, the chosen lookup and the unmount all succeed. Otherwise it returns the error of the first failing step, whether that is the read, `FsPath::new`, the chosen lookup or the unmount. |
| SysUmount.UmountIgnoresUnknownBits | kernel/aster-nix/src/syscall/umount.rs:19-22 | Only the four defined bits affect the outcome: clearing every other bit changes nothing. |
| SysUmount.SysUmountChecked | kernel/aster-nix/src/syscall/umount.rs:22 | Corrected: a set bit outside the four flags in the caller's 32-bit word gives EINVAL before the path is resolved. Otherwise the outcome is the original's. |
| SysUmount.UnknownFlagAccepted | kernel/aster-nix/src/syscall/umount.rs:19-22 | A call with bit 4 set unmounts and returns 0, while the corrected call returns EINVAL. |

## Left out

- Locking (`Mutex`) and the `Weak` upgrades: the model is sequential, and every upgrade is taken to succeed.
- `println!` and `current!()` in `copy_tree`: the calling task's root and working directory are passed in and returned explicitly.
- `Dentry::new_root` in `MountNode::new`: the root dentry of a new mount is a parameter.
- `read_cstring_from_user`: its outcome is an input, a string or an error.
- `FsPath::new`, `lookup` and `lookup_no_follow` are parameters that may fail.
- `Path::mount` and `Path::umount` as called by the syscalls are parameters that may fail. `start_block_device` and `Ext2::open` in `do_new_mount` are left out, including their panics on failure.
- The five TODO handlers of `sys_mount` have no effect. They appear only as named entries in the handler sequence.
- The `debug!` and `log_syscall_entry!` logging is left out.
- The filesystem's own `sync` is a parameter indexed by the mount it is called from, not by the filesystem. So two mounts of one filesystem may get different answers, as two successive calls can. Each mount is flushed at most once in a run, so one answer per mount covers every run.
- `BindPortConfig::new` and `Iface::bind_socket` are parameters. `IfaceLoopback::new` is a parameter: the loopback interface is passed in.
- IpCommon.GetEphemeralIface: requires the global interface list to be non-empty when no interface matches, where the source panics on `unwrap`.
- IpCommon.GetEphemeralEndpoint: requires the chosen interface to have an IPv4 address when it is the global fallback, where the source panics on `unwrap`.
- `MntNamespace::default`, `root_mount`, `NetNamespace::default`, `INIT_NET` and `Nsproxy::default` are boot-time globals and are not modelled.
- `MountNode::root_dentry`, `mountpoint_dentry`, `parent`, `fs` and `this` are plain field reads of the `Node` datatype.
- `net/mod.rs`, `syscall/unshare.rs`, `fs/utils/vfsmount.rs` and `framework/aster-frame/src/task/task.rs` are not part of this model. They hold device registration, a call to code that is not shown, a field wrapper, and context-switch plumbing.
- `DentryKey` is taken to be the dentry itself, an injective key. `BTreeMap` iteration order is ascending order of that key.

## Findings

| source | as written | input that shows it | evidently intended | confidence | as-written member | corrected member |
|---|---|---|---|---|---|---|
| kernel/aster-nix/src/syscall/mount.rs:63-64 | `do_new_mount(devname, target_path);` drops the `Result` and the call returns `Ok(0)` | a target that resolves but whose mount fails, e.g. with ENOTDIR | propagate the mount's error with `?` | high, not executed | SysMount.FailedMountReturnsZero | SysMount.SysMountChecked |
| kernel/aster-nix/src/syscall/umount.rs:19-22 | the flags are truncated to the four known bits before `check_unsupported_flags`, whose `Result` is dropped, so the check can never fail and would be ignored if it did | flag word `0x10`: the call unmounts and returns 0 | refuse unknown bits of the caller's word with EINVAL before resolving the path | medium, not executed | SysUmount.UnknownFlagAccepted | SysUmount.SysUmountChecked |
