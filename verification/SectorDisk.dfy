// The disk as SynchDisk presents it: an array of fixed-size sectors, read and written whole.
module SectorDisk {
  import opened Codec

  const SECTOR_SIZE := 128
  const DISK_NUM_SECTORS := 1024

  type Sector = s: seq<byte> | |s| == SECTOR_SIZE witness seq(SECTOR_SIZE, i => 0 as byte)

  const BLANK: Sector := seq(SECTOR_SIZE, i => 0 as byte)

  /** Everything stored on the disk at one moment. */
  type Image = d: seq<Sector> | |d| == DISK_NUM_SECTORS witness seq(DISK_NUM_SECTORS, i => BLANK)

  class SynchDisk {
    const sectors: array<Sector>

    ghost predicate Valid() {
      sectors.Length == DISK_NUM_SECTORS
    }

    ghost function Contents(): Image
      requires Valid()
      reads sectors
    {
      sectors[..]
    }

    /** The objects this one is made of. */
    ghost function Repr(): set<object> {
      {this, sectors}
    }

    constructor ()
      ensures Valid() && fresh(Repr())
    {
      sectors := new Sector[DISK_NUM_SECTORS];
    }

    /** SynchDisk::ReadSector into `data` at `off`. */
    method ReadSector(sectorNumber: int, data: array<byte>, off: nat)
      requires Valid() && 0 <= sectorNumber < DISK_NUM_SECTORS
      requires off + SECTOR_SIZE <= data.Length && data !in Repr()
      modifies data
      ensures data[off..off + SECTOR_SIZE] == Contents()[sectorNumber]
      ensures forall k :: 0 <= k < data.Length && !(off <= k < off + SECTOR_SIZE) ==> data[k] == old(data[k])
    {
      var s := sectors[sectorNumber];
      forall k | 0 <= k < SECTOR_SIZE {
        data[off + k] := s[k];
      }
    }

    /** SynchDisk::WriteSector from `data` at `off`. */
    method WriteSector(sectorNumber: int, data: array<byte>, off: nat)
      requires Valid() && 0 <= sectorNumber < DISK_NUM_SECTORS
      requires off + SECTOR_SIZE <= data.Length && data !in Repr()
      modifies sectors
      ensures Contents() == old(Contents())[sectorNumber := data[off..off + SECTOR_SIZE]]
    {
      sectors[sectorNumber] := data[off..off + SECTOR_SIZE];
    }
  }

  /** The library's bcopy between two different buffers. */
  method Bcopy(src: array<byte>, so: nat, dst: array<byte>, dof: nat, n: nat)
    requires src != dst && so + n <= src.Length && dof + n <= dst.Length
    modifies dst
    ensures dst[dof..dof + n] == src[so..so + n]
    ensures forall k :: 0 <= k < dst.Length && !(dof <= k < dof + n) ==> dst[k] == old(dst[k])
  {
    forall k | 0 <= k < n {
      dst[dof + k] := src[so + k];
    }
  }
}
