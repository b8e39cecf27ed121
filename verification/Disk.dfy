/**
 Block devices: an immutable disk behind reads that may fail at any time.
 A failed read can leave anything in the buffer.
 */
module Disk {
  import opened Machine

  /** What is on the disk: byte offset of a sector.  A count of zero means the size is not known. */
  datatype Medium = Medium(sectorSize: Word, sectorCount: Word, data: (int, int) -> Byte)

  /** The bytes of one sector. */
  function SectorBytes(d: Medium, sector: int): (bytes: seq<Byte>)
    ensures |bytes| == d.sectorSize
  {
    seq<Byte>(d.sectorSize, i requires 0 <= i < d.sectorSize => d.data(sector, i))
  }

  /** The device accepts the sector number. */
  predicate OnDevice(d: Medium, sector: Word) {
    d.sectorSize != 0 && (d.sectorCount == 0 || sector < d.sectorCount)
  }

  class BlockDevice {
    const medium: Medium
    /** The device has a read callback. */
    const connected: bool
    /** Whether the n-th read fails, and what a failed read leaves behind. */
    const fails: nat -> bool
    const junk: (nat, int) -> Byte
    /** Reads so far, and how many of them failed. */
    var attempts: nat
    ghost var failures: nat
    /** The sector of the last read that failed. */
    ghost var failedSector: Word

    constructor (medium: Medium, connected: bool, fails: nat -> bool, junk: (nat, int) -> Byte)
      ensures this.medium == medium && this.connected == connected && attempts == 0 && failures == 0
    {
      this.medium, this.connected, this.fails, this.junk := medium, connected, fails, junk;
      attempts, failures, failedSector := 0, 0, 0;
    }

    /** block_read_sector */
    method ReadSector(sector: Word, buffer: array<Byte>) returns (ok: bool)
      requires medium.sectorSize <= buffer.Length
      modifies this, buffer
      ensures ok <==> connected && OnDevice(medium, sector) && !fails(old(attempts))
      ensures attempts == old(attempts) + if connected && OnDevice(medium, sector) then 1 else 0
      ensures failures == old(failures) + if connected && OnDevice(medium, sector) && !ok then 1 else 0
      ensures connected && OnDevice(medium, sector) && !ok ==> failedSector == sector
      ensures ok ==> buffer[..medium.sectorSize] == SectorBytes(medium, sector)
    {
      if !connected || medium.sectorSize == 0 {
        return false;
      }
      if medium.sectorCount != 0 && sector >= medium.sectorCount {
        return false;
      }
      ok := !fails(attempts);
      forall i | 0 <= i < medium.sectorSize {
        buffer[i] := if ok then medium.data(sector, i) else junk(attempts, i);
      }
      attempts := attempts + 1;
      if !ok {
        failures, failedSector := failures + 1, sector;
      }
    }
  }
}
