/** The BIOS writer around the flash updater: region decoding, the checks in front of the write, and
    the byte-by-byte compare behind it (single-chip build, region checks enabled). */
module BiosWriter {
  import opened Bytes
  import opened Nor
  import opened SpiFlash

  const SIZE_8M: nat := 0x80_0000
  const SIZE_16M: nat := 0x100_0000

  /** Offset of the BIOS region word in a flash image. */
  const BIOS_REGION_OFFSET: nat := 0x44

  datatype Region = Region(address: nat, size: nat)

  /** End of the region that a descriptor word names: its limit field, in 4 KiB units, plus one. */
  function FlashSize(word: nat): nat {
    (word / 0x1_0000 % 0x1000 + 1) * 0x1000
  }

  /** Base and size of the region, with the size's 32-bit subtraction. */
  function RegionOf(word: nat): Region {
    var address := word % 0x1000 * 0x1000;
    Region(address, (FlashSize(word) - address) % U32)
  }

  /** The base field is at most one behind the limit field. */
  predicate BaseInOrder(word: nat) {
    word % 0x1000 <= word / 0x1_0000 % 0x1000 + 1
  }

  /** Whatever the fields of a region word, base and size are whole sectors, so the updater's alignment
      checks pass. */
  lemma RegionIsAligned(word: nat)
    ensures var r := RegionOf(word); r.address % SECTOR == 0 && r.size % SECTOR == 0
  {
    var base, limit := word % 0x1000, word / 0x1_0000 % 0x1000;
    assert (FlashSize(word) - base * 0x1000) % U32 == (limit + 1 - base) % 0x10_0000 * 0x1000;
  }

  /** The region ends with the chip, and lies inside it, exactly for words with their base in order;
      otherwise it starts behind the end of the chip and the size's subtraction wraps. */
  lemma RegionFitsExactly(word: nat)
    ensures var r := RegionOf(word);
            && r.address == 0x1000 * (word % 0x1000) && FlashSize(word) == 0x1000 * (word / 0x1_0000 % 0x1000 + 1)
            && (r.address + r.size <= FlashSize(word) <==> BaseInOrder(word))
            && (r.address + r.size == FlashSize(word) <==> BaseInOrder(word))
            && (!BaseInOrder(word) ==> r.address > FlashSize(word) && r.address + r.size == FlashSize(word) + U32)
  {
  }

  /** The last size check adds base and size in 32 bits. For a file that names the chip's own region, it
      compares the file with the chip size, which the check before has done already: no region word is
      refused by it, wrapped or not. */
  lemma GateIgnoresWrap(word: nat)
    ensures var r := RegionOf(word); (r.address + r.size) % U32 == FlashSize(word)
  {
  }

  /** What the variable for the file's region word holds after the read. The code tests another status
      than the one the read returns, so a failed or short read goes unnoticed and leaves what was there. */
  function FileWord(image: seq<byte>, wordRead: bool, stray: nat): nat {
    if wordRead && BIOS_REGION_OFFSET + 4 <= |image| then
      FromLe(image[BIOS_REGION_OFFSET..BIOS_REGION_OFFSET + 4])
    else
      stray % U32
  }

  lemma FileWordExactly(image: seq<byte>, wordRead: bool, stray: nat)
    requires stray < 0x1_0000_0000
    ensures FileWord(image, wordRead, stray)
            == if wordRead && 0x48 <= |image| then FromLe(image[0x44..0x48]) else stray
  {
  }

  /** The image passes the checks in front of the write: the descriptor's chip size is supported, the
      image is as long as the chip, and the region word taken for the file's names the same region. */
  predicate Acceptable(word: nat, image: seq<byte>, fileWord: nat) {
    && (FlashSize(word) == SIZE_8M || FlashSize(word) == SIZE_16M)
    && |image| == FlashSize(word)
    && RegionOf(fileWord) == RegionOf(word)
  }

  /** A region word of an 8 MiB chip whose region lies behind the chip's end, and that an image naming
      the same word gets past every check. */
  lemma WrappedRegionPasses(image: seq<byte>)
    requires |image| == SIZE_8M && FromLe(image[0x44..0x48]) == 0x07FF_0801
    ensures var (word, r) := (0x07FF_0801, RegionOf(0x07FF_0801));
            && Acceptable(word, image, FileWord(image, true, 0))
            && (r.address + r.size) % U32 == |image|
            && r.address % SECTOR == 0 && r.size % SECTOR == 0
            && !BaseInOrder(word) && r.address > SIZE_8M && r.size > SIZE_8M
  {
  }

  /** compareSpiFlash: true exactly when the flash equals the file from the region on. A key can only
      cut a failing compare short. */
  method CompareSpiFlash(c: SpiController, buf: seq<byte>, regionAddress: nat, biosSize: nat,
                         keys: nat -> int)
    returns (res: bool)
    requires biosSize <= |c.mem| && biosSize <= |buf|
    ensures res <==> forall i :: regionAddress <= i < biosSize ==> c.mem[i] == buf[i]
  {
    res := true;
    var polled: nat := 0;
    var i := regionAddress;
    while i < biosSize
      invariant regionAddress <= i
      invariant res <==> forall j :: regionAddress <= j < i && j < biosSize ==> c.mem[j] == buf[j]
    {
      if c.mem[i] != buf[i] {
        res := false;
        polled := polled + 1;
        if keys(polled - 1) == 0x78 {
          break;
        }
      }
      i := i + 1;
    }
  }

  /** Chips of 8 and of 16 MiB are accepted and no others, with an image of the chip's size whose region
      word has the same base and limit fields. */
  lemma AcceptableExactly(word: nat, image: seq<byte>, fileWord: nat)
    ensures Acceptable(word, image, fileWord) <==>
              && word / 0x1_0000 % 0x1000 in {0x7FF, 0xFFF}
              && |image| == (if word / 0x1_0000 % 0x1000 == 0x7FF then 0x80_0000 else 0x100_0000)
              && fileWord % 0x1000 == word % 0x1000
              && fileWord / 0x1_0000 % 0x1000 == word / 0x1_0000 % 0x1000
  {
  }

  /** If the read of the word fails, an image whose own word names another region can pass. */
  lemma UnreadWordPasses(image: seq<byte>)
    requires |image| == SIZE_8M && FromLe(image[0x44..0x48]) == 0x07FF_0600
    ensures Acceptable(0x07FF_0500, image, FileWord(image, false, 0x07FF_0500))
    ensures !Acceptable(0x07FF_0500, image, FileWord(image, true, 0x07FF_0500))
  {
  }

  datatype Operator = Operator(confirm: int, duringWrite: nat -> int, duringCompare: nat -> int)

  /** The checks one after the other, as the writer makes them. */
  lemma ChecksDecide(word: nat, image: seq<byte>, fileWord: nat)
    ensures var (pch, file) := (RegionOf(word), RegionOf(fileWord));
            && (Acceptable(word, image, fileWord) <==>
                  && FlashSize(word) in {SIZE_8M, SIZE_16M} && |image| == FlashSize(word)
                  && file.address == pch.address && file.size == pch.size)
            && (Acceptable(word, image, fileWord) ==> (file.address + file.size) % U32 == |image|)
  {
    GateIgnoresWrap(word);
  }

  /** The write command of BiosWriterEntryPoint, up to its "Done" message. `word` is the chip's region
      register, `file` the image if it could be opened, `wordRead` whether reading its region word
      succeeds and `stray` what is there otherwise, and `readOk` whether reading the image succeeds.

      Whatever the flash does and whichever keys are pressed, bytes below the region base never change,
      and "Done" is reached only with the flash equal to the file from the base to the end. Over a
      fault-free chip and without an abort it is reached exactly for acceptable, confirmed images that
      have no page that the updater takes for blank. */
  method WriteBios(c: SpiController, word: nat, file: Option<seq<byte>>, wordRead: bool, stray: nat,
                   readOk: bool, user: Operator)
    returns (done: bool)
    requires c.Valid() && BaseInOrder(word) && |c.mem| == FlashSize(word)
    modifies c
    ensures c.Valid() && |c.mem| == |old(c.mem)| && c.biosCntl == old(c.biosCntl)
    ensures c.mem[..RegionOf(word).address] == old(c.mem)[..RegionOf(word).address]
    ensures done ==>
              && file.Some? && Acceptable(word, file.value, FileWord(file.value, wordRead, stray))
              && c.mem[RegionOf(word).address..] == file.value[RegionOf(word).address..]
    ensures c.FaultFree() && c.Equipped() && (forall n: nat :: !IsAbortKey(user.duringWrite(n))) ==>
              (done <==>
                && file.Some? && Acceptable(word, file.value, FileWord(file.value, wordRead, stray))
                && user.confirm == 0x57 && readOk
                && var r := RegionOf(word); NoSectorTakenForBlank(file.value, r.address, r.size / SECTOR))
    ensures file.None? || user.confirm != 0x57 ==> !done && c.mem == old(c.mem)
  {
    hide NoSectorTakenForBlank, Clean, Acceptable, RegionOf, FlashSize, FileWord;
    RegionIsAligned(word);
    RegionFitsExactly(word);
    if file.Some? {
      ChecksDecide(word, file.value, FileWord(file.value, wordRead, stray));
    }
    var pchRegion := RegionOf(word);
    var pchFlashSize := FlashSize(word);
    var descriptorError := pchFlashSize != SIZE_8M && pchFlashSize != SIZE_16M;
    if file.None? || descriptorError {
      return false;
    }
    var image := file.value;
    var fileRegion := RegionOf(FileWord(image, wordRead, stray));
    if fileRegion.address != pchRegion.address || fileRegion.size != pchRegion.size {
      return false;
    }
    if |image| != pchFlashSize {
      return false;
    }
    if (fileRegion.address + fileRegion.size) % U32 != |image| {
      return false;
    }
    if user.confirm != 0x57 || !readOk {
      return false;
    }
    ghost var n, aborted;
    var ok;
    ok, n, aborted := c.WriteSpiFlash(image, pchRegion.address, pchRegion.size, user.duringWrite);
    if !ok {
      return false;
    }
    done := CompareSpiFlash(c, image, pchRegion.address, pchFlashSize, user.duringCompare);
  }
}
