/** `check_disk_space` (download-youtube-playlist.py): free space in whole
    mebibytes against the requirement plus a margin. The free byte count,
    which the script reads from the file system, is a parameter here. */
module DiskSpace {
  /** 2**20 bytes. */
  const MiB: nat := 0x10_0000

  const DefaultMarginMb: int := 500

  /** `free // 2**20 >= required_space_mb + extra_space_mb`: holds exactly when
      the free bytes cover the requirement and the margin, counted in bytes. */
  function CheckDiskSpace(free: nat, requiredMb: int, extraMb: int := DefaultMarginMb): (ok: bool)
    ensures ok <==> free >= (requiredMb + extraMb) * MiB
  {
    free / MiB >= requiredMb + extraMb
  }

  /** Whole mebibytes are what counts: a partial mebibyte of free space never
      changes the answer. */
  lemma PartialMebibyteIgnored(freeMb: nat, extraBytes: nat, requiredMb: int, extraMb: int)
    requires extraBytes < MiB
    ensures CheckDiskSpace(freeMb * MiB + extraBytes, requiredMb, extraMb) == CheckDiskSpace(freeMb * MiB, requiredMb, extraMb)
  {
  }
}
