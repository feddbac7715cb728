/** The disk as the file system sees it: reliable, one sector at a time. */
module Device {
  import opened Bytes
  import opened Layout
  import opened Writes

  class DiskDevice {
    var sectors: Disk
    /** Every write so far, oldest first. */
    ghost var log: seq<SectorWrite>

    method WriteSector(s: nat, data: Sector)
      requires s < DISK_SECTORS
      modifies this
      ensures sectors == old(sectors)[s := data]
      ensures log == old(log) + [SectorWrite(s, data)]
    {
      sectors := sectors[s := data];
      log := log + [SectorWrite(s, data)];
    }

    method ReadSector(s: nat) returns (data: Sector)
      requires s < DISK_SECTORS
      ensures data == sectors[s]
    {
      data := sectors[s];
    }
  }
}
