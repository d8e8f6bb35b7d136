/** A block device: every transfer of an existing sector succeeds, and writing a missing one has no effect. */
module BlockDevices {
  import opened Bytes

  class BlockDevice {
    var sectors: seq<Sector>

    constructor (contents: seq<Sector>)
      ensures sectors == contents
    {
      sectors := contents;
    }

    method ReadSector(n: nat, buf: array<byte>)
      requires n < |sectors| && buf.Length == SECTOR_SIZE
      modifies buf
      ensures buf[..] == sectors[n]
    {
      forall i | 0 <= i < SECTOR_SIZE {
        buf[i] := sectors[n][i];
      }
    }

    method WriteSector(n: nat, buf: array<byte>)
      requires buf.Length == SECTOR_SIZE
      modifies this
      ensures sectors == if n < |old(sectors)| then old(sectors)[n := buf[..]] else old(sectors)
    {
      if n < |sectors| {
        sectors := sectors[n := buf[..]];
      }
    }
  }
}
