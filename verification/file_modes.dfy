/** The file-type bits of `st_mode` that `stat` reports. */
module FileModes {
  /** `S_IFMT`, `S_IFREG` and `S_IFLNK` as POSIX defines them (octal 0170000,
      0100000 and 0120000). */
  const FileTypeMask: bv32 := 0xF000
  const RegularType: bv32 := 0x8000
  const LinkType: bv32 := 0xA000

  function FileType(mode: bv32): bv32 {
    mode & FileTypeMask
  }
}
