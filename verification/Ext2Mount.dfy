/** The mount context that the ext2 routines share. */
module Ext2Mount {
  import opened Device
  import opened Ext2Layout

  class Mount {
    const device: BlockDevice
    var superblock: Block

    constructor (device: BlockDevice, superblock: Block)
      ensures this.device == device && this.superblock == superblock
    {
      this.device := device;
      this.superblock := superblock;
    }

    ghost predicate Valid()
      reads this, device
    {
      device.Valid() && Laid(State())
    }

    ghost function State(): (fs: Fs)
      reads this, device
    {
      Fs(device.Blocks(), superblock)
    }
  }
}
