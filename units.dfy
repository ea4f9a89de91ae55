/** The binary size units shared by the size limit, the chunk size and the size display. */
module Units {
  const KiB: nat := 1024
  const MiB: nat := 1048576
  const GiB: nat := 1073741824
}
