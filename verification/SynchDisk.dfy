/** The synchronous disk as its callers see it: a call returns once its one sector has been transferred.
    How threads, the lock and the interrupt make that true is the subject of SynchDiskProtocol. */
module SynchDisks {
  import opened Bytes
  import opened DiskImage

  class SynchDisk {
    var image: Image

    constructor (contents: Image)
      ensures image == contents
    {
      image := contents;
    }

    /** Reads a sector into the 128 bytes of data that start at offset. */
    method ReadSector(sector: int, data: array<byte>, offset: nat)
      requires 0 <= sector < NUM_SECTORS && offset + SECTOR_SIZE <= data.Length
      modifies data
      ensures data[..] == old(data[..offset]) + image[sector] + old(data[offset + SECTOR_SIZE..])
    {
      var contents := image[sector];
      forall j | 0 <= j < SECTOR_SIZE {
        data[offset + j] := contents[j];
      }
    }

    /** Writes the 128 bytes of data that start at offset to a sector. */
    method WriteSector(sector: int, data: array<byte>, offset: nat)
      requires 0 <= sector < NUM_SECTORS && offset + SECTOR_SIZE <= data.Length
      modifies this
      ensures image == old(image)[sector := data[offset..offset + SECTOR_SIZE]]
    {
      image := image[sector := data[offset..offset + SECTOR_SIZE]];
    }
  }
}
