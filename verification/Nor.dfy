/** A NOR flash part and the SPI protocol in front of it.

    Erasing a 4 KiB sector sets its bytes to 0xFF, programming can only clear bits, and every
    command may fail and leave the bytes it addressed in any state. */
module Nor {
  import opened Bytes

  const SECTOR: nat := 0x1000

  datatype Status =
    | Success
    | InvalidParameter
    | AccessDenied
    | BadBufferSize
    | DeviceError
    | NotFound

  function Erased(mem: seq<byte>, at: nat, len: nat): (r: seq<byte>)
    requires at + len <= |mem|
    ensures |r| == |mem|
  {
    Splice(mem, at, Ones(len))
  }

  function Programmed(mem: seq<byte>, at: nat, data: seq<byte>): (r: seq<byte>)
    requires at + |data| <= |mem|
    ensures |r| == |mem|
  {
    Splice(mem, at, AndBytes(mem[at..at + |data|], data))
  }

  function Garbled(mem: seq<byte>, at: nat, len: nat, noise: nat -> byte): (r: seq<byte>)
    requires at + len <= |mem|
    ensures |r| == |mem|
  {
    Splice(mem, at, seq<byte>(len, i requires 0 <= i < len => noise(i)))
  }

  /** An erase of `len` bytes from `at` that stopped after `done` whole sectors: these are blank,
      the next one may hold anything, all other bytes are as before. */
  ghost predicate EraseStoppedAt(before: seq<byte>, after: seq<byte>, at: nat, len: nat, done: nat) {
    && at + len <= |before| == |after|
    && done * SECTOR <= len
    && after[at..at + done * SECTOR] == Ones(done * SECTOR)
    && SameOutside(before, after, at, len)
    && SameOutside(before, after, at, (done + 1) * SECTOR)
  }

  /** Byte by byte: the sectors that were erased are blank, the sector after them may hold anything, and
      all other bytes are as before. */
  lemma ErasedBytes(before: seq<byte>, after: seq<byte>, at: nat, len: nat, done: nat, i: nat)
    requires EraseStoppedAt(before, after, at, len, done) && i < |before|
    ensures |after| == |before|
    ensures at <= i < at + done * 0x1000 ==> after[i] == 0xFF
    ensures i < at || at + len <= i || at + (done + 1) * 0x1000 <= i ==> after[i] == before[i]
  {
    if at <= i < at + done * SECTOR {
      assert after[i] == after[at..at + done * SECTOR][i - at];
    }
  }

  lemma EraseNothing(mem: seq<byte>, at: nat)
    requires at <= |mem|
    ensures Erased(mem, at, 0) == mem
  {
  }

  lemma EraseNextSector(mem: seq<byte>, at: nat, done: nat)
    requires at + (done + 1) * SECTOR <= |mem|
    ensures Erased(Erased(mem, at, done * SECTOR), at + done * SECTOR, SECTOR)
         == Erased(mem, at, (done + 1) * SECTOR)
  {
  }

  lemma EraseStops(before: seq<byte>, after: seq<byte>, at: nat, len: nat, done: nat)
    requires at + len <= |before| && (done + 1) * SECTOR <= len
    requires SameOutside(Erased(before, at, done * SECTOR), after, at + done * SECTOR, SECTOR)
    ensures EraseStoppedAt(before, after, at, len, done)
  {
  }

  lemma EraseCompletes(before: seq<byte>, at: nat, len: nat, done: nat)
    requires at + len <= |before| && done * SECTOR == len
    ensures EraseStoppedAt(before, Erased(before, at, len), at, len, done)
  {
  }

  /** Programming blank bytes stores the data. */
  lemma ProgramBlank(mem: seq<byte>, at: nat, data: seq<byte>)
    requires at + |data| <= |mem|
    requires mem[at..at + |data|] == Ones(|data|)
    ensures Programmed(mem, at, data) == Splice(mem, at, data)
  {
    AndBytesOnes(data);
  }

  /** What the environment does to one command: whether it succeeds, what a failing one leaves
      behind, and how many status polls the part stays busy afterwards. */
  datatype Event = Event(ok: bool, noise: nat -> byte, polls: nat)

  /** EFI_SPI_PROTOCOL.Execute over the BIOS region of one part, for the three opcodes that the
      firmware volume driver issues. */
  class SpiProtocol {
    const env: nat -> Event
    var clock: nat
    var busy: nat
    var mem: seq<byte>

    constructor (image: seq<byte>, env: nat -> Event)
      requires |image| % SECTOR == 0
      ensures mem == image && this.env == env && Whole()
    {
      this.env := env;
      mem, clock, busy := image, 0, 0;
    }

    /** The part consists of whole sectors. */
    ghost predicate Whole()
      reads this
    {
      |mem| % SECTOR == 0
    }

    ghost predicate FaultFree() {
      forall n :: env(n).ok
    }

    /** No command from number `from` up to `to` failed. */
    ghost predicate Answered(from: nat, to: nat) {
      forall n {:trigger env(n)} :: from <= n < to ==> env(n).ok
    }

    method EraseSector(address: nat) returns (ok: bool)
      requires address % SECTOR == 0 && address + SECTOR <= |mem|
      modifies this
      ensures |mem| == |old(mem)|
      ensures ok ==> mem == Erased(old(mem), address, SECTOR)
      ensures SameOutside(old(mem), mem, address, SECTOR)
      ensures ok == env(old(clock)).ok && clock == old(clock) + 1
    {
      var event := env(clock);
      clock, busy, ok := clock + 1, event.polls, event.ok;
      mem := if ok then Erased(mem, address, SECTOR) else Garbled(mem, address, SECTOR, event.noise);
    }

    method Program(address: nat, data: seq<byte>) returns (ok: bool)
      requires address + |data| <= |mem|
      modifies this
      ensures |mem| == |old(mem)|
      ensures ok ==> mem == Programmed(old(mem), address, data)
      ensures SameOutside(old(mem), mem, address, |data|)
      ensures ok == env(old(clock)).ok && clock == old(clock) + 1
    {
      var event := env(clock);
      clock, busy, ok := clock + 1, event.polls, event.ok;
      mem := if ok then Programmed(mem, address, data)
             else Garbled(mem, address, |data|, event.noise);
    }

    method ReadStatus() returns (ok: bool, isBusy: bool)
      modifies this`clock, this`busy
      ensures ok == env(old(clock)).ok && clock == old(clock) + 1
      ensures if isBusy then busy < old(busy) else busy == 0
    {
      ok := env(clock).ok;
      clock := clock + 1;
      isBusy := busy > 0;
      busy := if isBusy then busy - 1 else 0;
    }
  }
}
