/** The flash updater: sector erase, program and verify through the SPI controller's software
    sequencing registers, and the loop over a whole region. */
module SpiFlash {
  import opened Bytes
  import opened Nor

  const PAGE: nat := 64
  const PAGES: nat := 64
  const MAX_IMAGE: nat := 0x100_0000

  const SPI_SECTOR_ERASE: byte := 0x20
  const SPI_PAGE_PROGRAM: byte := 0x02
  const SPI_READ_STATUS: byte := 0x05
  const SPI_WRITE_ENABLE: byte := 0x06

  const BIOSWE: bv32 := 1
  const ALL_BUT_BIOSWE: bv32 := 0xFFFF_FFFE

  /** What the environment does to one SPI cycle: whether the controller is idle before it, how long
      the status bits take, and whether the flash obeys or leaves noise behind. A cycle may also
      report success and still have gone wrong. */
  datatype Cycle = Cycle(idle: bool, clearPolls: nat, donePolls: nat, obeyed: bool, noise: nat -> byte)

  /** executeOpcode gives up after this many polls. */
  const TIMEOUT: nat := 4000

  predicate Clean(c: Cycle) {
    c.idle && c.donePolls <= TIMEOUT && c.obeyed
  }

  /** The code sees the cycle start and end. */
  predicate Answers(c: Cycle) {
    c.idle && c.donePolls <= TIMEOUT
  }

  /** The 16 dwords of the page at `i` all equal 0x000000FF, the value that the code takes for a blank
      page. */
  predicate TakenForBlank(buf: seq<byte>, i: nat)
    requires i + PAGE <= |buf|
  {
    forall j :: 0 <= j < 16 ==> buf[i + 4 * j..i + 4 * j + 4] == [0xFF, 0, 0, 0]
  }

  /** Byte by byte: 0xFF and three zeros, sixteen times. Any other byte gets the page programmed. */
  lemma TakenForBlankExactly(buf: seq<byte>, i: nat)
    requires i + PAGE <= |buf|
    ensures var page := buf[i..i + PAGE];
            TakenForBlank(buf, i) <==> forall k :: 0 <= k < PAGE ==> page[k] == if k % 4 == 0 then 0xFF else 0
  {
    var page := buf[i..i + PAGE];
    forall j | 0 <= j < 16
      ensures buf[i + 4 * j..i + 4 * j + 4] == [page[4 * j], page[4 * j + 1], page[4 * j + 2], page[4 * j + 3]]
    {
    }
    if TakenForBlank(buf, i) {
      forall k | 0 <= k < PAGE ensures page[k] == if k % 4 == 0 then 0xFF else 0 {
        var j := k / 4;
        assert buf[i + 4 * j..i + 4 * j + 4] == [0xFF, 0, 0, 0];
        assert page[k] == buf[i + 4 * j..i + 4 * j + 4][k % 4];
      }
    }
    if forall k :: 0 <= k < PAGE ==> page[k] == if k % 4 == 0 then 0xFF else 0 {
      forall j | 0 <= j < 16 ensures buf[i + 4 * j..i + 4 * j + 4] == [0xFF, 0, 0, 0] {
        assert page[4 * j] == 0xFF && page[4 * j + 1] == page[4 * j + 2] == page[4 * j + 3] == 0;
      }
    }
  }

  /** The first `n` pages of a blank sector after the page loop over `len` bytes of `buf`. */
  function Burned(buf: seq<byte>, len: nat, n: nat): (r: seq<byte>)
    requires |buf| == SECTOR && n <= PAGES
    ensures |r| == PAGE * n
  {
    if n == 0 then []
    else
      var i := PAGE * (n - 1);
      Burned(buf, len, n - 1) + if i < len && !TakenForBlank(buf, i) then buf[i..i + PAGE] else Ones(PAGE)
  }

  /** Escape, 'x' or 'X'. */
  predicate IsAbortKey(key: int) {
    key == 0x1B || key == 0x58 || key == 0x78
  }

  lemma AbortKeysExactly(key: int)
    ensures IsAbortKey(key) <==> key in {27, 'X' as int, 'x' as int}
  {
  }

  /** None of the first `n` polls of the keyboard meets an abort key. */
  predicate NoAbortBefore(keys: nat -> int, n: nat) {
    forall j: nat :: j < n ==> !IsAbortKey(keys(j))
  }

  lemma AbortLaws(keys: nat -> int, n: nat)
    ensures NoAbortBefore(keys, 0)
    ensures NoAbortBefore(keys, n) && !IsAbortKey(keys(n)) ==> NoAbortBefore(keys, n + 1)
    ensures IsAbortKey(keys(n)) ==> forall m :: n < m ==> !NoAbortBefore(keys, m)
  {
  }

  /** The region's first `k` sectors equal the image; everything else is as before. */
  ghost predicate WrittenUpTo(before: seq<byte>, after: seq<byte>, buf: seq<byte>, start: nat, size: nat,
                              k: nat) {
    && |after| == |before| && start + size <= |before| && start + size <= |buf| && k * SECTOR <= size
    && after[start..start + k * SECTOR] == buf[start..start + k * SECTOR]
    && SameOutside(before, after, start, k * SECTOR)
  }

  /** An update that stopped with `k` sectors done: these equal the image, the next one may hold
      anything, later ones and everything outside the region are as before. */
  ghost predicate StoppedAt(before: seq<byte>, after: seq<byte>, buf: seq<byte>, start: nat, size: nat,
                            k: nat) {
    && |after| == |before| && start + size <= |before| && start + size <= |buf| && k * SECTOR <= size
    && after[start..start + k * SECTOR] == buf[start..start + k * SECTOR]
    && SameOutside(before, after, start, size)
    && SameOutside(before, after, start, (k + 1) * SECTOR)
  }

  predicate NoSectorTakenForBlank(buf: seq<byte>, start: nat, n: nat) {
    forall k :: 0 <= k < n && start + k * SECTOR + SECTOR <= |buf| ==>
      NoPageTakenForBlank(buf[start + k * SECTOR..start + k * SECTOR + SECTOR])
  }

  class SpiController {
    const present: bool
    const opmenu: seq<byte>
    const preop: seq<byte>
    const env: nat -> Cycle
    var clock: nat
    var fladdr: nat
    var fldata: seq<byte>
    var biosCntl: bv32
    var mem: seq<byte>
    ghost var erases: nat
    ghost var programs: nat

    constructor (present: bool, opmenu: seq<byte>, preop: seq<byte>, env: nat -> Cycle, biosCntl: bv32,
                 mem: seq<byte>)
      requires |opmenu| == 8 && |preop| == 2 && |mem| % SECTOR == 0 && |mem| <= MAX_IMAGE
      ensures Valid() && this.mem == mem && this.biosCntl == biosCntl
    {
      this.present, this.opmenu, this.preop, this.env := present, opmenu, preop, env;
      this.biosCntl, this.mem, clock, fladdr, fldata := biosCntl, mem, 0, 0, Ones(PAGE);
      erases, programs := 0, 0;
    }

    ghost predicate Valid()
      reads this
    {
      |opmenu| == 8 && |preop| == 2 && |fldata| == PAGE && |mem| % SECTOR == 0 && |mem| <= MAX_IMAGE
    }

    ghost predicate FaultFree() {
      forall n :: Clean(env(n))
    }

    /** The write protection is off and the prefix makes the flash accept a write command. */
    predicate Armed(prefix: int)
      reads this`biosCntl
    {
      0 <= prefix < |preop| && preop[prefix] == SPI_WRITE_ENABLE && biosCntl & BIOSWE != 0
    }

    /** Cycle `n` reaches the flash and may change it. */
    predicate Started(n: nat, prefix: int)
      reads this`biosCntl
    {
      present && env(n).idle && Armed(prefix)
    }

    /** Every cycle from number `from` up to `to` was seen to start and to end. */
    ghost predicate Answered(from: nat, to: nat) {
      forall n {:trigger env(n)} :: from <= n < to ==> Answers(env(n))
    }

    /** executeOpcode: start one cycle and poll for its end. */
    method ExecuteOpcode(prefix: int, opcode: nat, dataLen: nat) returns (ok: bool)
      requires Valid() && opcode < 8 && dataLen <= PAGE
      requires opmenu[opcode] == SPI_SECTOR_ERASE ==>
                 fladdr % SECTOR == 0 && fladdr + SECTOR <= |mem| && dataLen == 0
      requires opmenu[opcode] == SPI_PAGE_PROGRAM ==> fladdr + dataLen <= |mem|
      modifies this`mem, this`clock, this`erases, this`programs
      ensures Valid() && |mem| == |old(mem)|
      ensures ok <==> present && env(old(clock)).idle && env(old(clock)).donePolls <= 4000
      ensures clock == old(clock) + if present then 1 else 0
      ensures opmenu[opcode] == SPI_SECTOR_ERASE && Started(old(clock), prefix) ==>
                && erases == old(erases) + 1 && programs == old(programs)
                && SameOutside(old(mem), mem, fladdr, SECTOR)
                && (env(old(clock)).obeyed ==> mem == Erased(old(mem), fladdr, SECTOR))
      ensures opmenu[opcode] == SPI_PAGE_PROGRAM && Started(old(clock), prefix) ==>
                && erases == old(erases) && programs == old(programs) + 1
                && SameOutside(old(mem), mem, fladdr, dataLen)
                && (env(old(clock)).obeyed ==> mem == Programmed(old(mem), fladdr, fldata[..dataLen]))
      ensures opmenu[opcode] !in {SPI_SECTOR_ERASE, SPI_PAGE_PROGRAM} || !Started(old(clock), prefix) ==>
                mem == old(mem) && erases == old(erases) && programs == old(programs)
    {
      if !present {
        return false;
      }
      var cycle := env(clock);
      clock := clock + 1;
      if !cycle.idle {
        return false;
      }
      var polls := 0;
      while polls < cycle.clearPolls {
        polls := polls + 1;
      }
      if Armed(prefix) {
        if opmenu[opcode] == SPI_SECTOR_ERASE {
          erases := erases + 1;
          mem := if cycle.obeyed then Erased(mem, fladdr, SECTOR)
                 else Garbled(mem, fladdr, SECTOR, cycle.noise);
        } else if opmenu[opcode] == SPI_PAGE_PROGRAM {
          programs := programs + 1;
          mem := if cycle.obeyed then Programmed(mem, fladdr, fldata[..dataLen])
                 else Garbled(mem, fladdr, dataLen, cycle.noise);
        }
      }
      var timer := 0;
      while timer < cycle.donePolls
        invariant timer <= cycle.donePolls && timer <= TIMEOUT
      {
        timer := timer + 1;
        if timer > TIMEOUT {
          return false;
        }
      }
      return true;
    }

    /** The sector is blank. */
    predicate Blank(at: nat)
      requires at + SECTOR <= |mem|
      reads this
    {
      mem[at..at + SECTOR] == Ones(SECTOR)
    }

    /** The search through the opcode menu: the last slot that holds `code`, or -1. */
    method FindOpcode(code: byte) returns (index: int)
      requires Valid()
      ensures -1 <= index < 8
      ensures if index < 0 then code !in opmenu else opmenu[index] == code
      ensures forall i :: index < i < 8 ==> opmenu[i] != code
    {
      index := -1;
      var i := 0;
      while i < 8
        invariant 0 <= i <= 8 && -1 <= index < i
        invariant if index < 0 then code !in opmenu[..i] else opmenu[index] == code
        invariant forall j :: index < j < i ==> opmenu[j] != code
      {
        if opmenu[i] == code {
          index := i;
        }
        i := i + 1;
      }
      assert opmenu[..8] == opmenu;
    }

    method FindPrefix() returns (index: int)
      requires Valid()
      ensures -1 <= index < 2
      ensures if index < 0 then SPI_WRITE_ENABLE !in preop else preop[index] == SPI_WRITE_ENABLE
      ensures index == 0 ==> preop[1] != SPI_WRITE_ENABLE
    {
      index := -1;
      if preop[0] == SPI_WRITE_ENABLE {
        index := 0;
      }
      if preop[1] == SPI_WRITE_ENABLE {
        index := 1;
      }
    }

    /** All opcodes and the prefix that _writeSector looks for are programmed in the controller. */
    predicate Equipped() {
      && present
      && SPI_SECTOR_ERASE in opmenu
      && SPI_PAGE_PROGRAM in opmenu
      && SPI_READ_STATUS in opmenu
      && SPI_WRITE_ENABLE in preop
    }

    lemma ArmedExactly(prefix: int)
      requires Valid()
      ensures Armed(prefix) <==> prefix in {0, 1} && preop[prefix] == 0x06 && biosCntl & 1 == 1
    {
      OneBit(biosCntl);
    }

    lemma EquippedExactly()
      ensures Equipped() <==> present && 0x20 in opmenu && 0x02 in opmenu && 0x05 in opmenu && 0x06 in preop
    {
    }

    method CheckBlank(at: nat) returns (blank: bool)
      requires Valid() && at + SECTOR <= |mem|
      ensures blank == Blank(at)
      ensures blank <==> forall i :: at <= i < at + 0x1000 ==> mem[i] == 0xFF
    {
      var i := 0;
      while i < SECTOR / 4
        invariant 0 <= i <= SECTOR / 4
        invariant forall j :: at <= j < at + 4 * i ==> mem[j] == 0xFF
      {
        if mem[at + 4 * i..at + 4 * i + 4] != [0xFF, 0xFF, 0xFF, 0xFF] {
          SliceOfSlice(mem, at, SECTOR, 4 * i, 4);
          assert Ones(SECTOR)[4 * i..4 * i + 4] == [0xFF, 0xFF, 0xFF, 0xFF];
          return false;
        }
        FourBytes(mem, at + 4 * i);
        i := i + 1;
      }
      assert mem[at..at + SECTOR] == Ones(SECTOR);
      return true;
    }

    /** Step 3 of _writeSector: erase until the sector reads blank. The sector is not looked at again
        after a third erase, which always fails. */
    method EraseSector(at: nat, prefix: int, opcode: nat) returns (ok: bool)
      requires Valid() && at % SECTOR == 0 && at + SECTOR <= |mem|
      requires opcode < 8 && opmenu[opcode] == SPI_SECTOR_ERASE
      modifies this`mem, this`clock, this`erases, this`programs, this`fladdr
      ensures Valid() && SameOutside(old(mem), mem, at, SECTOR)
      ensures ok ==> Blank(at) && erases <= old(erases) + 2
      ensures programs == old(programs) && erases <= old(erases) + 3
      ensures old(clock) <= clock && (ok ==> Answered(old(clock), clock))
      ensures FaultFree() && present && Armed(prefix) ==> ok && erases <= old(erases) + 1
    {
      hide Erased;
      var eraseCnt := 0;
      while true
        invariant 0 <= eraseCnt < 3
        invariant Valid() && SameOutside(old(mem), mem, at, SECTOR)
        invariant programs == old(programs) && erases <= old(erases) + eraseCnt
        invariant old(clock) <= clock && Answered(old(clock), clock)
        invariant FaultFree() && present && Armed(prefix) ==>
                    eraseCnt <= 1 && (eraseCnt == 1 ==> Blank(at))
        decreases 3 - eraseCnt
      {
        var blank := CheckBlank(at);
        if blank {
          return true;
        }
        fladdr := at;
        ErasedIsBlank(mem, at);
        ok := ExecuteOpcode(prefix, opcode, 0);
        if !ok {
          return false;
        }
        eraseCnt := eraseCnt + 1;
        if eraseCnt >= 3 {
          return false;
        }
      }
    }

    method LooksBlank(buf: seq<byte>, i: nat) returns (blank: bool)
      requires i + PAGE <= |buf|
      ensures blank == TakenForBlank(buf, i)
    {
      var j := 0;
      while j < 16
        invariant 0 <= j <= 16
        invariant forall k :: 0 <= k < j ==> buf[i + 4 * k..i + 4 * k + 4] == [0xFF, 0, 0, 0]
      {
        if buf[i + 4 * j..i + 4 * j + 4] != [0xFF, 0, 0, 0] {
          return false;
        }
        j := j + 1;
      }
      return true;
    }

    /** Fill the data registers with one page. */
    method LoadData(buf: seq<byte>, i: nat)
      requires Valid() && i + PAGE <= |buf|
      modifies this`fldata
      ensures Valid() && fldata == buf[i..i + PAGE]
    {
      var j := 0;
      while j < 16
        invariant 0 <= j <= 16 && |fldata| == PAGE
        invariant forall k :: 0 <= k < 4 * j ==> fldata[k] == buf[i + k]
      {
        fldata := Splice(fldata, 4 * j, buf[i + 4 * j..i + 4 * j + 4]);
        j := j + 1;
      }
      assert fldata == buf[i..i + PAGE];
    }

    /** One page of step 4: program it unless it looks blank. */
    method BurnPage(buf: seq<byte>, i: nat, tmpAddr: nat, prefix: int, opcode: nat) returns (ok: bool)
      requires Valid() && i + PAGE <= |buf| && tmpAddr + PAGE <= |mem|
      requires opcode < 8 && opmenu[opcode] == SPI_PAGE_PROGRAM
      modifies this`mem, this`clock, this`programs, this`erases, this`fladdr, this`fldata
      ensures Valid() && SameOutside(old(mem), mem, tmpAddr, PAGE)
      ensures erases == old(erases) && programs <= old(programs) + 1
      ensures old(clock) <= clock && (ok ==> Answered(old(clock), clock))
      ensures FaultFree() && present && Armed(prefix) ==>
                ok && mem == if TakenForBlank(buf, i) then old(mem) else Programmed(old(mem), tmpAddr, buf[i..i + PAGE])
    {
      hide Programmed, TakenForBlank;
      var blank := LooksBlank(buf, i);
      if blank {
        return true;
      }
      fladdr := tmpAddr;
      LoadData(buf, i);
      assert fldata[..PAGE] == buf[i..i + PAGE];
      ok := ExecuteOpcode(prefix, opcode, PAGE);
    }

    /** Step 4 of _writeSector: program the pages that do not look blank. */
    method BurnPages(at: nat, buf: seq<byte>, len: nat, prefix: int, opcode: nat) returns (ok: bool)
      requires Valid() && at + SECTOR <= |mem| && |buf| == SECTOR && len <= SECTOR
      requires opcode < 8 && opmenu[opcode] == SPI_PAGE_PROGRAM
      modifies this`mem, this`clock, this`programs, this`erases, this`fladdr, this`fldata
      ensures Valid() && SameOutside(old(mem), mem, at, SECTOR)
      ensures erases == old(erases) && programs <= old(programs) + PAGES
      ensures old(clock) <= clock && (ok ==> Answered(old(clock), clock))
      ensures FaultFree() && present && Armed(prefix) && old(Blank(at)) ==>
                ok && mem[at..at + SECTOR] == Burned(buf, len, PAGES)
    {
      hide Programmed, TakenForBlank, HalfBurned, Burned;
      var i, tmpAddr := 0, at;
      ghost var n := 0;
      ghost var good := FaultFree() && present && Armed(prefix) && Blank(at);
      BurnNothing(mem, buf, len, at);
      while i < len
        invariant 0 <= n <= PAGES && i == PAGE * n && tmpAddr == at + i
        invariant Valid() && SameOutside(old(mem), mem, at, SECTOR)
        invariant erases == old(erases) && programs <= old(programs) + n
        invariant old(clock) <= clock && Answered(old(clock), clock)
        invariant good ==> HalfBurned(mem, buf, len, at, n)
      {
        ghost var was := mem;
        ok := BurnPage(buf, i, tmpAddr, prefix, opcode);
        if !ok {
          return false;
        }
        if good {
          BurnOne(was, mem, buf, len, at, n);
        }
        n := n + 1;
        i := i + PAGE;
        tmpAddr := tmpAddr + PAGE;
      }
      if good {
        BurnedRest(buf, len, n);
        HalfIsAll(mem, buf, len, at, n);
      }
      return true;
    }

    /** Step 5 of _writeSector: compare whole dwords. */
    method Verify(at: nat, buf: seq<byte>, len: nat) returns (ok: bool)
      requires Valid() && at + SECTOR <= |mem| && |buf| == SECTOR && len <= SECTOR
      ensures ok == (mem[at..at + len / 4 * 4] == buf[..len / 4 * 4])
    {
      var i := 0;
      while i < len / 4
        invariant 0 <= i <= len / 4
        invariant mem[at..at + 4 * i] == buf[..4 * i]
      {
        NextDword(mem, at, buf, 4 * i, len / 4 * 4);
        if buf[4 * i..4 * i + 4] != mem[at + 4 * i..at + 4 * i + 4] {
          return false;
        }
        i := i + 1;
      }
      return true;
    }

    /** _writeSector between the point where writing is enabled and its two exits. */
    method ReplaceSector(at: nat, buf: seq<byte>, len: nat, prefix: int, eraseOp: nat, writeOp: nat)
      returns (ok: bool)
      requires Valid() && at % SECTOR == 0 && at + SECTOR <= |mem| && |buf| == SECTOR && len <= SECTOR
      requires eraseOp < 8 && opmenu[eraseOp] == SPI_SECTOR_ERASE
      requires writeOp < 8 && opmenu[writeOp] == SPI_PAGE_PROGRAM
      modifies this`mem, this`clock, this`programs, this`erases, this`fladdr, this`fldata
      ensures Valid() && SameOutside(old(mem), mem, at, SECTOR)
      ensures ok ==> mem[at..at + len / 4 * 4] == buf[..len / 4 * 4]
      ensures old(clock) <= clock && (ok ==> Answered(old(clock), clock))
      ensures FaultFree() && present && Armed(prefix) ==>
                && mem[at..at + SECTOR] == Burned(buf, len, PAGES)
                && ok == (mem[at..at + len / 4 * 4] == buf[..len / 4 * 4])
                && erases <= old(erases) + 1 && programs <= old(programs) + PAGES
    {
      hide Burned;
      ok := EraseSector(at, prefix, eraseOp);
      if ok {
        ok := BurnPages(at, buf, len, prefix, writeOp);
      }
      if ok {
        ok := Verify(at, buf, len);
      }
    }

    /** _writeSector, for the chipsets that it drives itself. Whatever the device does, only the
        addressed sector can change, success means that the compared dwords match, and the BIOS_CNTL
        register ends with its entry value. */
    method WriteSector(addr: nat, buf: seq<byte>, len: nat) returns (ok: bool)
      requires Valid() && addr + SECTOR <= |mem| && |buf| == SECTOR
      modifies this
      ensures Valid() && SameOutside(old(mem), mem, addr, SECTOR)
      ensures biosCntl == old(biosCntl)
      ensures ok ==> len <= SECTOR && mem[addr..addr + len / 4 * 4] == buf[..len / 4 * 4]
      ensures old(clock) <= clock && (ok ==> Answered(old(clock), clock))
      ensures !Equipped() || addr % SECTOR != 0 || len > SECTOR ==> !ok && mem == old(mem)
      ensures FaultFree() && Equipped() && addr % SECTOR == 0 && len <= SECTOR ==>
                && mem[addr..addr + SECTOR] == Burned(buf, len, PAGES)
                && ok == (mem[addr..addr + len / 4 * 4] == buf[..len / 4 * 4])
                && erases <= old(erases) + 1 && programs <= old(programs) + PAGES
    {
      hide Burned, SameOutside;
      SameAll(mem, addr, SECTOR);
      var tmpAddr := addr % MAX_IMAGE;
      if !present {
        return false;
      }
      if tmpAddr % SECTOR != 0 || len > SECTOR {
        return false;
      }
      var eraseOp := FindOpcode(SPI_SECTOR_ERASE);
      var writeOp := FindOpcode(SPI_PAGE_PROGRAM);
      var statusOp := FindOpcode(SPI_READ_STATUS);
      var prefix := FindPrefix();
      if eraseOp < 0 || writeOp < 0 || statusOp < 0 || prefix < 0 {
        return false;
      }
      ok := ReplaceUnlocked(tmpAddr, buf, len, prefix, eraseOp, writeOp);
    }

    /** Switch the write protection off, replace the sector, and restore the protection on the way
        out. */
    method ReplaceUnlocked(at: nat, buf: seq<byte>, len: nat, prefix: nat, eraseOp: nat, writeOp: nat)
      returns (ok: bool)
      requires Valid() && at % SECTOR == 0 && at + SECTOR <= |mem| && |buf| == SECTOR && len <= SECTOR
      requires prefix < 2 && preop[prefix] == SPI_WRITE_ENABLE
      requires eraseOp < 8 && opmenu[eraseOp] == SPI_SECTOR_ERASE
      requires writeOp < 8 && opmenu[writeOp] == SPI_PAGE_PROGRAM
      modifies this
      ensures Valid() && SameOutside(old(mem), mem, at, SECTOR)
      ensures biosCntl == old(biosCntl)
      ensures ok ==> mem[at..at + len / 4 * 4] == buf[..len / 4 * 4]
      ensures old(clock) <= clock && (ok ==> Answered(old(clock), clock))
      ensures FaultFree() && present ==>
                && mem[at..at + SECTOR] == Burned(buf, len, PAGES)
                && ok == (mem[at..at + len / 4 * 4] == buf[..len / 4 * 4])
                && erases <= old(erases) + 1 && programs <= old(programs) + PAGES
    {
      hide Burned, SameOutside, Reset, Clean;
      var enabledBefore := biosCntl & BIOSWE;
      Enabled(biosCntl);
      SetThenReset(biosCntl);
      biosCntl := biosCntl | BIOSWE;
      ok := ReplaceSector(at, buf, len, prefix, eraseOp, writeOp);
      biosCntl := Reset(biosCntl, enabledBefore);
    }

    /** One round of writeSpiFlash: the sector at `at`, number `k` of the region, is copied out of the
        image and written. */
    method CopySector(buf: seq<byte>, at: nat, ghost before: seq<byte>, ghost start: nat, ghost size: nat, ghost k: nat)
      returns (ok: bool)
      requires Valid() && at == start + k * SECTOR && start % SECTOR == 0
      requires (k + 1) * SECTOR <= size && start + size <= |mem|
      requires WrittenUpTo(before, mem, buf, start, size, k)
      modifies this
      ensures Valid() && |mem| == |old(mem)| && biosCntl == old(biosCntl)
      ensures StoppedAt(before, mem, buf, start, size, k)
      ensures ok ==> WrittenUpTo(before, mem, buf, start, size, k + 1)
      ensures old(clock) <= clock && (ok ==> Answered(old(clock), clock))
      ensures at + SECTOR <= |buf|
      ensures FaultFree() && Equipped() ==> (ok <==> NoPageTakenForBlank(buf[at..at + SECTOR]))
    {
      hide SameOutside, Burned, NoPageTakenForBlank, Clean;
      var byteBuf := buf[at..at + SECTOR];
      ghost var was := mem;
      ok := WriteSector(at, byteBuf, SECTOR);
      WholeSectorVerdict(byteBuf);
      assert byteBuf[..SECTOR / 4 * 4] == byteBuf;
      SectorWritten(before, was, mem, buf, start, size, k);
    }

    /** writeSpiFlash. `done` counts the sectors written when it stops; `aborted` says that a key
        stopped it, which it reports as success: exactly when one of the keys polled in front of the
        sectors is an abort key, and then the region is unfinished. */
    method WriteSpiFlash(buf: seq<byte>, startAddr: nat, size: nat, keys: nat -> int)
      returns (ok: bool, ghost done: nat, ghost aborted: bool)
      requires Valid() && startAddr + size <= |mem| && startAddr + size <= |buf|
      modifies this
      ensures Valid() && biosCntl == old(biosCntl)
      ensures StoppedAt(old(mem), mem, buf, startAddr, size, done)
      ensures aborted ==> ok && IsAbortKey(keys(done)) && SameOutside(old(mem), mem, startAddr, done * SECTOR)
      ensures ok ==> Answered(old(clock), clock)
      ensures ok ==> (aborted <==> done * SECTOR < size)
      ensures ok ==> (aborted <==> !NoAbortBefore(keys, size / SECTOR))
      ensures !present || startAddr % SECTOR != 0 || size % SECTOR != 0 ==> !ok && mem == old(mem)
      ensures FaultFree() && Equipped() && startAddr % SECTOR == 0 && size % SECTOR == 0 && !aborted ==>
                (ok <==> NoSectorTakenForBlank(buf, startAddr, size / SECTOR))
    {
      hide SameOutside, Burned, NoPageTakenForBlank, Clean, NoAbortBefore, IsAbortKey, WrittenUpTo, StoppedAt,
           NoSectorTakenForBlank;
      done, aborted := 0, false;
      NothingWritten(mem, buf, startAddr, size);
      AbortLaws(keys, 0);
      NoSectorYet(buf, startAddr);
      if !present {
        return false, 0, false;
      }
      if startAddr % SECTOR != 0 {
        return false, 0, false;
      }
      if size % SECTOR != 0 {
        return false, 0, false;
      }
      ghost var total: nat := size / SECTOR;
      assert size == total * SECTOR;
      var actAddr, left, polled := startAddr, size, 0;
      while left > 0
        invariant polled == done <= total && left == (total - done) * SECTOR
        invariant actAddr == startAddr + done * SECTOR
        invariant Valid() && |mem| == |old(mem)| && biosCntl == old(biosCntl)
        invariant WrittenUpTo(old(mem), mem, buf, startAddr, size, done)
        invariant NoAbortBefore(keys, done)
        invariant old(clock) <= clock && Answered(old(clock), clock)
        invariant FaultFree() && Equipped() ==> NoSectorTakenForBlank(buf, startAddr, done)
      {
        WrittenThenStopped(old(mem), mem, buf, startAddr, size, done);
        AbortLaws(keys, done);
        if IsAbortKey(keys(polled)) {
          return true, done, true;
        }
        ok := CopySector(buf, actAddr, old(mem), startAddr, size, done);
        NextSector(buf, startAddr, done, total);
        if !ok {
          return false, done, false;
        }
        done := done + 1;
        polled := polled + 1;
        actAddr := actAddr + SECTOR;
        left := left - SECTOR;
      }
      WrittenThenStopped(old(mem), mem, buf, startAddr, size, done);
      return true, done, false;
    }
  }

  lemma OneBit(x: bv32)
    ensures x & 1 == 0 || x & 1 == 1
  {
  }

  /** Byte by byte: the sectors that were done hold the image, the sector after them may hold anything, and
      all other bytes are as before. */
  lemma StoppedBytes(before: seq<byte>, after: seq<byte>, buf: seq<byte>, start: nat, size: nat, k: nat, i: nat)
    requires StoppedAt(before, after, buf, start, size, k) && i < |before|
    ensures |after| == |before|
    ensures start <= i < start + k * 0x1000 ==> after[i] == buf[i]
    ensures i < start || start + size <= i || start + (k + 1) * 0x1000 <= i ==> after[i] == before[i]
  {
    if start <= i < start + k * SECTOR {
      assert after[i] == after[start..start + k * SECTOR][i - start];
    }
  }

  lemma ErasedIsBlank(mem: seq<byte>, at: nat)
    requires at + SECTOR <= |mem|
    ensures Erased(mem, at, SECTOR)[at..at + SECTOR] == Ones(SECTOR)
  {
  }

  lemma FourBytes(mem: seq<byte>, k: nat)
    requires k + 4 <= |mem|
    ensures forall j {:trigger mem[j]} :: k <= j < k + 4 ==> mem[j] == mem[k..k + 4][j - k]
  {
  }

  /** `n` pages of a blank sector are done, the rest is still blank. */
  ghost predicate HalfBurned(mem: seq<byte>, buf: seq<byte>, len: nat, at: nat, n: nat) {
    && |buf| == SECTOR && n <= PAGES && at + SECTOR <= |mem|
    && mem[at..at + PAGE * n] == Burned(buf, len, n)
    && mem[at + PAGE * n..at + SECTOR] == Ones(SECTOR - PAGE * n)
  }

  lemma BurnNothing(mem: seq<byte>, buf: seq<byte>, len: nat, at: nat)
    requires |buf| == SECTOR && at + SECTOR <= |mem|
    ensures mem[at..at + SECTOR] == Ones(SECTOR) ==> HalfBurned(mem, buf, len, at, 0)
  {
  }

  lemma OnesSplit(n: nat, k: nat)
    requires k <= n
    ensures Ones(n)[0..k] == Ones(k) && Ones(n)[k..n] == Ones(n - k)
  {
  }

  /** The part of the sector behind page `n` and that page itself are blank before the page is done. */
  lemma PageIsBlank(a: seq<byte>, at: nat, i: nat)
    requires at + SECTOR <= |a| && i + PAGE <= SECTOR && a[at + i..at + SECTOR] == Ones(SECTOR - i)
    ensures a[at + i..at + i + PAGE] == Ones(PAGE)
    ensures a[at + i + PAGE..at + SECTOR] == Ones(SECTOR - i - PAGE)
  {
    var rest := SECTOR - i;
    SliceOfSlice(a, at + i, rest, 0, PAGE);
    SliceOfSlice(a, at + i, rest, PAGE, rest - PAGE);
    OnesSplit(rest, PAGE);
  }

  /** Programming one blank page. */
  lemma PageProgrammed(a: seq<byte>, at: nat, i: nat, page: seq<byte>)
    requires at + SECTOR <= |a| && i + PAGE <= SECTOR && |page| == PAGE
    requires a[at + i..at + i + PAGE] == Ones(PAGE)
    ensures var b := Programmed(a, at + i, page);
            && b[at..at + i] == a[at..at + i]
            && b[at + i..at + i + PAGE] == page
            && b[at + i + PAGE..at + SECTOR] == a[at + i + PAGE..at + SECTOR]
  {
    hide Splice, Programmed;
    ProgramBlank(a, at + i, page);
    SpliceWindow(a, at + i, page, 0, PAGE);
    SpliceElsewhere(a, at + i, page, at, at + i);
    SpliceElsewhere(a, at + i, page, at + i + PAGE, at + SECTOR);
    assert page[0..PAGE] == page;
  }

  lemma BurnOne(a: seq<byte>, b: seq<byte>, buf: seq<byte>, len: nat, at: nat, n: nat)
    requires HalfBurned(a, buf, len, at, n) && n < PAGES && PAGE * n < len
    requires b == if TakenForBlank(buf, PAGE * n) then a
                  else Programmed(a, at + PAGE * n, buf[PAGE * n..PAGE * n + PAGE])
    ensures HalfBurned(b, buf, len, at, n + 1)
  {
    hide TakenForBlank, Programmed, Splice;
    var i := PAGE * n;
    PageIsBlank(a, at, i);
    if !TakenForBlank(buf, i) {
      PageProgrammed(a, at, i, buf[i..i + PAGE]);
    }
    SliceJoin(b, at, at + i, at + i + PAGE);
  }

  lemma {:induction false} BurnedRest(buf: seq<byte>, len: nat, n: nat)
    requires |buf| == SECTOR && n <= PAGES && len <= PAGE * n
    ensures Burned(buf, len, PAGES) == Burned(buf, len, n) + Ones(SECTOR - PAGE * n)
    decreases PAGES - n
  {
    if n == PAGES {
    } else {
      BurnedRest(buf, len, n + 1);
      assert Ones(PAGE) + Ones(SECTOR - PAGE * (n + 1)) == Ones(SECTOR - PAGE * n);
    }
  }

  lemma HalfIsAll(mem: seq<byte>, buf: seq<byte>, len: nat, at: nat, n: nat)
    requires HalfBurned(mem, buf, len, at, n)
    requires Burned(buf, len, PAGES) == Burned(buf, len, n) + Ones(SECTOR - PAGE * n)
    ensures mem[at..at + SECTOR] == Burned(buf, len, PAGES)
  {
  }

  lemma NextDword(mem: seq<byte>, at: nat, buf: seq<byte>, k: nat, n: nat)
    requires k + 4 <= n <= |buf| && at + n <= |mem|
    ensures mem[at..at + k] == buf[..k] && mem[at + k..at + k + 4] == buf[k..k + 4] ==>
              mem[at..at + k + 4] == buf[..k + 4]
    ensures mem[at + k..at + k + 4] != buf[k..k + 4] ==> mem[at..at + n] != buf[..n]
  {
    SliceJoin(mem, at, at + k, at + k + 4);
    SliceJoin(buf, 0, k, k + 4);
    SliceOfSlice(mem, at, n, k, 4);
    SliceOfSlice(buf, 0, n, k, 4);
    assert buf[0..n] == buf[..n] && buf[0..k] == buf[..k] && buf[0..k + 4] == buf[..k + 4];
  }

  lemma SameAll(mem: seq<byte>, at: int, len: int)
    ensures SameOutside(mem, mem, at, len)
  {
  }

  lemma Enabled(x: bv32)
    ensures (x | BIOSWE) & BIOSWE != 0
  {
  }

  /** What the write-enable bit goes through: set, and cleared again if it was clear on entry. */
  function Reset(x: bv32, enabledBefore: bv32): bv32 {
    if enabledBefore == 0 then x & ALL_BUT_BIOSWE else x
  }

  lemma SetThenReset(x: bv32)
    ensures Reset(x | BIOSWE, x & BIOSWE) == x
  {
  }

  /** The sector equals the buffer after the page loop exactly when no page of the buffer is made up of
      0x000000FF dwords. */
  lemma {:induction false} BurnedExactly(buf: seq<byte>, n: nat)
    requires |buf| == SECTOR && n <= PAGES
    ensures Burned(buf, SECTOR, n) == buf[..PAGE * n] <==>
              forall p :: 0 <= p < n ==> !TakenForBlank(buf, PAGE * p)
  {
    hide TakenForBlank;
    if n == 0 {
    } else {
      var i := PAGE * (n - 1);
      BurnedExactly(buf, n - 1);
      if TakenForBlank(buf, i) {
        NotBlank(buf, i);
      }
      var last := if TakenForBlank(buf, i) then Ones(PAGE) else buf[i..i + PAGE];
      assert buf[..PAGE * n] == buf[..i] + buf[i..i + PAGE];
      LastPage(Burned(buf, SECTOR, n - 1), last, buf[..i], buf[i..i + PAGE]);
    }
  }

  /** What the code takes for blank is not blank. */
  lemma NotBlank(buf: seq<byte>, i: nat)
    requires i + PAGE <= |buf| && TakenForBlank(buf, i)
    ensures buf[i..i + PAGE] != Ones(PAGE)
  {
    var j := 0;
    assert buf[i + 4 * j..i + 4 * j + 4] == [0xFF, 0, 0, 0];
    assert buf[i + 4 * j..i + 4 * j + 4][1] == buf[i + 1];
    assert buf[i..i + PAGE][1] == buf[i + 1];
  }

  lemma LastPage(a: seq<byte>, x: seq<byte>, b: seq<byte>, y: seq<byte>)
    requires |a| == |b| && |x| == |y|
    ensures a + x == b + y <==> a == b && x == y
  {
    if a + x == b + y {
      assert a == (a + x)[..|a|] && b == (b + y)[..|b|];
      assert x == (a + x)[|a|..] && y == (b + y)[|b|..];
    }
  }

  predicate NoPageTakenForBlank(buf: seq<byte>)
    requires |buf| == SECTOR
  {
    forall p :: 0 <= p < PAGES ==> !TakenForBlank(buf, PAGE * p)
  }

  /** For a whole sector the verdict of a fault-free write, over any prior contents, is exactly that no
      page looks blank to the code. */
  lemma WholeSectorVerdict(buf: seq<byte>)
    requires |buf| == SECTOR
    ensures Burned(buf, SECTOR, PAGES) == buf <==> NoPageTakenForBlank(buf)
  {
    BurnedExactly(buf, PAGES);
    assert buf[..PAGE * PAGES] == buf;
  }

  lemma NoSectorYet(buf: seq<byte>, start: nat)
    ensures NoSectorTakenForBlank(buf, start, 0)
  {
  }

  lemma NothingWritten(mem: seq<byte>, buf: seq<byte>, start: nat, size: nat)
    requires start + size <= |mem| && start + size <= |buf|
    ensures WrittenUpTo(mem, mem, buf, start, size, 0) && StoppedAt(mem, mem, buf, start, size, 0)
  {
  }

  lemma WrittenThenStopped(before: seq<byte>, after: seq<byte>, buf: seq<byte>, start: nat, size: nat, k: nat)
    requires WrittenUpTo(before, after, buf, start, size, k)
    ensures SameOutside(before, after, start, k * SECTOR)
    ensures StoppedAt(before, after, buf, start, size, k)
  {
  }

  /** One more sector was replaced, well or badly. */
  lemma SectorWritten(before: seq<byte>, was: seq<byte>, now: seq<byte>, buf: seq<byte>, start: nat,
                      size: nat, k: nat)
    requires WrittenUpTo(before, was, buf, start, size, k) && (k + 1) * SECTOR <= size
    requires SameOutside(was, now, start + k * SECTOR, SECTOR)
    ensures StoppedAt(before, now, buf, start, size, k)
    ensures var at := start + k * SECTOR;
            now[at..at + SECTOR] == buf[at..at + SECTOR] ==>
              WrittenUpTo(before, now, buf, start, size, k + 1)
  {
    var at := start + k * SECTOR;
    assert now[start..at] == was[start..at];
    SliceJoin(now, start, at, at + SECTOR);
    SliceJoin(buf, start, at, at + SECTOR);
  }

  lemma NextSector(buf: seq<byte>, start: nat, k: nat, n: nat)
    requires k < n && start + n * SECTOR <= |buf|
    ensures var at := start + k * SECTOR;
            && at + SECTOR <= |buf|
            && (NoSectorTakenForBlank(buf, start, k) && NoPageTakenForBlank(buf[at..at + SECTOR]) ==>
                  NoSectorTakenForBlank(buf, start, k + 1))
            && (!NoPageTakenForBlank(buf[at..at + SECTOR]) ==> !NoSectorTakenForBlank(buf, start, n))
  {
  }
}
