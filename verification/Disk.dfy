/** The disk as the file system sees it (machine/disk.h, filesys/synchdisk.cc): an array of sectors,
    each read or written whole. The wait for the device is modelled apart, in SynchDisk.dfy. */
module Disks {
  import opened Words

  // The sector size, 128 bytes, is written as a numeral: division and remainder by it then stay linear
  // for the solver.
  const SECTORS_PER_TRACK := 32
  const NUM_TRACKS := 32
  const NUM_SECTORS := SECTORS_PER_TRACK * NUM_TRACKS

  type Sector = s: seq<byte> | |s| == 128 witness BLANK
  type Image = d: seq<Sector> | |d| == NUM_SECTORS witness seq<Sector>(NUM_SECTORS, i => BLANK)

  const BLANK: seq<byte> := seq<byte>(128, i => 0)

  class Disk {
    var image: Image

    constructor (image: Image)
      ensures this.image == image
    {
      this.image := image;
    }

    method ReadSector(sector: int) returns (data: Sector)
      requires 0 <= sector < NUM_SECTORS
      ensures data == image[sector]
    {
      data := image[sector];
    }

    method WriteSector(sector: int, data: Sector)
      requires 0 <= sector < NUM_SECTORS
      modifies this
      ensures image == old(image)[sector := data]
    {
      image := image[sector := data];
    }
  }
}
