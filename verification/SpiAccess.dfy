/** The driver's two flash primitives over the SPI protocol. Flash offset 0 is mapped at address
    `deviceBase`. */
module SpiAccess {
  import opened Bytes
  import opened Nor

  /** SpiSectorsErase: one 4 KiB erase per sector, each followed by polling the busy bit. */
  method SectorsErase(spi: SpiProtocol, deviceBase: nat, address: nat, len: nat)
    returns (status: Status, ghost done: nat)
    requires spi.Whole()
    requires address != 0 && len % SECTOR == 0 ==>
               && deviceBase <= address && (address - deviceBase) % SECTOR == 0
               && address - deviceBase + len <= |spi.mem|
    modifies spi
    ensures |spi.mem| == |old(spi.mem)|
    ensures address == 0 || len == 0 || len % SECTOR != 0 ==>
              status == InvalidParameter && spi.mem == old(spi.mem) && spi.clock == old(spi.clock)
    ensures address != 0 && len != 0 && len % SECTOR == 0 ==>
              && (status == Success || status == DeviceError)
              && (status == Success ==> spi.mem == Erased(old(spi.mem), address - deviceBase, len))
              && (spi.FaultFree() ==> status == Success)
              && (status == Success <==> spi.Answered(old(spi.clock), spi.clock))
              && (status == Success ==> spi.busy == 0)
              && EraseStoppedAt(old(spi.mem), spi.mem, address - deviceBase, len, done)
  {
    done := 0;
    if address == 0 || len == 0 || len % SECTOR != 0 {
      return InvalidParameter, 0;
    }
    hide EraseStoppedAt, Erased, SameOutside;
    var at := address - deviceBase;
    var index := 0;
    EraseNothing(spi.mem, at);
    while index < len / SECTOR
      invariant 0 <= index <= len / SECTOR
      invariant |spi.mem| == |old(spi.mem)|
      invariant spi.mem == Erased(old(spi.mem), at, index * SECTOR)
      invariant old(spi.clock) <= spi.clock && spi.Answered(old(spi.clock), spi.clock)
      invariant index > 0 ==> spi.busy == 0
    {
      var ok := spi.EraseSector(at + index * SECTOR);
      EraseStops(old(spi.mem), spi.mem, at, len, index);
      if !ok {
        return DeviceError, index;
      }
      EraseNextSector(old(spi.mem), at, index);
      var isBusy := true;
      while isBusy
        invariant spi.mem == Erased(old(spi.mem), at, (index + 1) * SECTOR)
        invariant old(spi.clock) <= spi.clock && spi.Answered(old(spi.clock), spi.clock)
        invariant !isBusy ==> spi.busy == 0
        decreases isBusy, spi.busy
      {
        ok, isBusy := spi.ReadStatus();
        if !ok {
          return DeviceError, index;
        }
      }
      index := index + 1;
    }
    EraseCompletes(old(spi.mem), at, len, index);
    return Success, index;
  }

  /** SpiProgramBuffer: one program command and a wait; the compare afterwards only logs. */
  method ProgramBuffer(spi: SpiProtocol, deviceBase: nat, data: seq<byte>, address: nat, offset: nat)
    returns (status: Status)
    requires spi.Whole()
    requires deviceBase <= address && address - deviceBase + offset + |data| <= |spi.mem|
    modifies spi
    ensures SameOutside(old(spi.mem), spi.mem, address - deviceBase + offset, |data|)
    ensures address == 0 || data == [] ==>
              status == InvalidParameter && spi.mem == old(spi.mem) && spi.clock == old(spi.clock)
    ensures address != 0 && data != [] ==>
              && (status == Success || status == DeviceError)
              && (status == Success ==>
                    spi.mem == Programmed(old(spi.mem), address - deviceBase + offset, data))
              && (spi.FaultFree() ==> status == Success)
              && (status == Success <==> spi.Answered(old(spi.clock), spi.clock))
              && (status == Success ==> spi.busy == 0)
  {
    if address == 0 || data == [] {
      return InvalidParameter;
    }
    var ok := spi.Program(address - deviceBase + offset, data);
    if !ok {
      return DeviceError;
    }
    var isBusy := true;
    while isBusy
      invariant spi.mem == Programmed(old(spi.mem), address - deviceBase + offset, data)
      invariant old(spi.clock) <= spi.clock && spi.Answered(old(spi.clock), spi.clock)
      invariant !isBusy ==> spi.busy == 0
      decreases isBusy, spi.busy
    {
      ok, isBusy := spi.ReadStatus();
      if !ok {
        return DeviceError;
      }
    }
    return Success;
  }
}
