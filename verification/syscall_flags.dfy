/** Bit-flag helpers shared by the `mount` and `umount` system calls: the
    `flags as u32` cast and the `bitflags` queries they use. */
module SyscallFlags {

  /** `flags as u32`: the low 32 bits of the 64-bit argument. */
  function Low32(raw: bv64): (w: bv32) {
    (raw & 0xFFFF_FFFF) as bv32
  }

  /** `bitflags`' `contains`: every bit of `flag` is set in `f`. */
  predicate Contains(f: bv32, flag: bv32) {
    f & flag == flag
  }
}
