/** Driver initialisation: one pass over the hand-off blocks sizes the instance buffer, a second one
    repairs damaged volumes, lays down variable-length instance records and counts blocks. */
module FvbInit {
  import opened Bytes
  import opened Nor
  import opened SpiAccess
  import opened BlockMap
  import opened FvbHeader

  datatype Hob = Hob(base: nat, length: nat)

  /** What GetMemorySpaceDescriptor says about an address. */
  datatype Space = Missing | MemoryMappedIo | OtherSpace

  datatype Media = Media(fvBase: nat, header: seq<byte>)

  datatype Platform = Platform(deviceBase: nat, space: nat -> Space, media: seq<Media>, pcds: Pcds)

  /** An accepted volume: its base address and the header kept for it. */
  datatype Record = Record(base: nat, header: seq<byte>)

  /** sizeof (EFI_FW_VOL_INSTANCE) - sizeof (EFI_FIRMWARE_VOLUME_HEADER): lock, two base addresses
      and the block count in front of the header. */
  const OVERHEAD: nat := 48
  const BASE_AT: nat := 24
  const COUNT_AT: nat := 40

  const STORE_SIZE: nat := 28

  function Lookup(media: seq<Media>, base: nat): Option<seq<byte>> {
    if media == [] then None
    else if media[0].fvBase == base then Some(media[0].header)
    else Lookup(media[1..], base)
  }

  /** GetFvbInfo. */
  method GetFvbInfo(media: seq<Media>, base: nat) returns (info: Option<seq<byte>>)
    ensures info == Lookup(media, base)
  {
    var index := 0;
    assert media[0..] == media;
    while index < |media|
      invariant 0 <= index <= |media|
      invariant Lookup(media, base) == Lookup(media[index..], base)
    {
      if media[index].fvBase == base {
        return Some(media[index].header);
      }
      index := index + 1;
    }
    return None;
  }

  /** The table is searched from the front. */
  lemma {:induction false} LookupIsFirst(media: seq<Media>, base: nat, i: nat)
    requires i <= |media| && (forall j :: 0 <= j < i ==> media[j].fvBase != base)
    requires i < |media| ==> media[i].fvBase == base
    ensures Lookup(media, base) == if i < |media| then Some(media[i].header) else None
  {
    if i > 0 {
      LookupIsFirst(media[1..], base, i - 1);
    }
  }

  /** The header is long enough to contain its own length field, so that a copy of it can be walked over. */
  predicate Walkable(h: seq<byte>) {
    |h| >= CHECKSUM_AT && FromLe(h[LENGTH_AT..CHECKSUM_AT]) == |h|
  }

  /** The block map of the header has a zero count inside the header. */
  predicate Countable(h: seq<byte>) {
    |h| >= HEADER_SIZE && CountEnds(MapOf(h))
  }

  predicate Usable(h: seq<byte>) {
    Walkable(h) && Countable(h)
  }

  /** The table's headers are usable templates that fit, with a variable store, in one block. */
  predicate MediaOk(pl: Platform) {
    && pl.pcds.Sane()
    && forall m :: m in pl.media ==> Usable(m.header) && HeaderOk(m.header)
                                     && |m.header| + STORE_SIZE <= pl.pcds.blockSize
                                     && |m.header| <= pl.pcds.variableSize
  }

  /** The volume that a hand-off block announces lies in flash, and so does what initialisation reads
      and repairs of it. */
  predicate Placed(mem: seq<byte>, pl: Platform, hob: Hob) {
    && pl.deviceBase <= hob.base < U64
    && var at := hob.base - pl.deviceBase;
    && HEADER_SIZE <= hob.length
    && at + hob.length <= |mem|
    && (FieldsOk(mem, at) ==> HeaderLength(mem, at) <= hob.length)
    && (Lookup(pl.media, hob.base).Some? ==>
          hob.base != 0 && at % SECTOR == 0 && pl.pcds.blockSize <= hob.length)
  }

  /** A placed volume whose header, if it validates, contains its own length field. */
  predicate HobOk(mem: seq<byte>, pl: Platform, hob: Hob) {
    && Placed(mem, pl, hob)
    && (ValidHeader(mem, hob.base - pl.deviceBase) ==> HeaderLength(mem, hob.base - pl.deviceBase) >= CHECKSUM_AT)
  }

  predicate IsFlash(pl: Platform, hob: Hob) {
    pl.space(hob.base) == MemoryMappedIo
  }

  predicate HobsOk(mem: seq<byte>, pl: Platform, hobs: seq<Hob>) {
    forall k :: 0 <= k < |hobs| && IsFlash(pl, hobs[k]) ==> HobOk(mem, pl, hobs[k])
  }

  predicate AllPlaced(mem: seq<byte>, pl: Platform, hobs: seq<Hob>) {
    forall k :: 0 <= k < |hobs| && IsFlash(pl, hobs[k]) ==> Placed(mem, pl, hobs[k])
  }

  /** The flash volumes are pairwise disjoint. */
  predicate HobsApart(pl: Platform, hobs: seq<Hob>) {
    forall j, k :: 0 <= j < k < |hobs| && IsFlash(pl, hobs[j]) && IsFlash(pl, hobs[k]) ==>
      hobs[j].base + hobs[j].length <= hobs[k].base || hobs[k].base + hobs[k].length <= hobs[j].base
  }

  /** The header that initialisation keeps for a volume: the one in flash when it is valid, else the
      template for that address, if there is one. */
  function Source(mem: seq<byte>, pl: Platform, hob: Hob): Option<seq<byte>> {
    if !Placed(mem, pl, hob) then None
    else
      var at := hob.base - pl.deviceBase;
      if ValidHeader(mem, at) then Some(HeaderAt(mem, at)) else Lookup(pl.media, hob.base)
  }

  /** The records for the hand-off blocks from `k` on, judged against one flash image. A block whose
      address has no descriptor ends the scan. */
  function Accepted(mem: seq<byte>, pl: Platform, hobs: seq<Hob>, k: nat := 0): seq<Record>
    requires k <= |hobs|
    decreases |hobs| - k
  {
    if k == |hobs| || pl.space(hobs[k].base) == Missing then []
    else
      var rest := Accepted(mem, pl, hobs, k + 1);
      if !IsFlash(pl, hobs[k]) then rest
      else match Source(mem, pl, hobs[k])
        case None => rest
        case Some(h) => [Record(hobs[k].base, h)] + rest
  }

  /** The header kept for a volume: a valid one in flash is kept as it is, over its own length; else the
      table entry for the address counts, if there is one. */
  lemma KeptHeader(mem: seq<byte>, pl: Platform, hob: Hob, at: nat, length: nat)
    requires Placed(mem, pl, hob) && at == hob.base - pl.deviceBase
    requires length == mem[at + 48] as int + 256 * mem[at + 49] as int
    ensures HeaderReadable(mem, at)
    ensures ValidHeader(mem, at) ==> at + length <= |mem| && Source(mem, pl, hob) == Some(mem[at..at + length])
    ensures !ValidHeader(mem, at) ==> Source(mem, pl, hob) == Lookup(pl.media, hob.base)
  {
    hide FromLe, WordSum, Lookup;
    LittleEndian(mem[at + 48], mem[at + 49], 0, 0);
    assert mem[at + 48..at + 50] == [mem[at + 48], mem[at + 49]];
  }

  /** The scan ends at the first block whose address has no descriptor. */
  lemma {:induction false} ScanStops(mem: seq<byte>, pl: Platform, hobs: seq<Hob>, k: nat, end: nat)
    requires k <= end < |hobs| && pl.space(hobs[end].base) == Missing
    ensures Accepted(mem, pl, hobs, k) == Accepted(mem, pl, hobs[..end], k)
    decreases end - k
  {
    hide Source;
    if k < end {
      ScanStops(mem, pl, hobs, k + 1, end);
    }
  }

  /** Up to there, each further block adds its record exactly if it lies in flash and has a header. */
  lemma {:induction false} ScanAppends(mem: seq<byte>, pl: Platform, hobs: seq<Hob>, hob: Hob, k: nat)
    requires k <= |hobs| && forall j :: 0 <= j < |hobs| ==> pl.space(hobs[j].base) != Missing
    ensures Accepted(mem, pl, hobs + [hob], k) == Accepted(mem, pl, hobs, k)
              + if pl.space(hob.base) == MemoryMappedIo && Source(mem, pl, hob).Some?
                then [Record(hob.base, Source(mem, pl, hob).value)] else []
    decreases |hobs| - k
  {
    hide Source;
    if k < |hobs| {
      ScanAppends(mem, pl, hobs, hob, k + 1);
    } else {
      assert Accepted(mem, pl, hobs + [hob], k + 1) == [];
    }
  }

  /** Byte offset of record `k` in the instance buffer. */
  function RecordOffset(rs: seq<Record>, k: nat): nat
    requires k <= |rs|
  {
    if k == 0 then 0 else RecordOffset(rs, k - 1) + OVERHEAD + |rs[k - 1].header|
  }

  /** The instance record of `r` lies at `off`: base address (physical and virtual copy), header, and the
      block count if the header determines it. */
  predicate HoldsRecord(buf: seq<byte>, off: nat, r: Record) {
    && off + OVERHEAD + |r.header| <= |buf|
    && FromLe(buf[off + BASE_AT..off + BASE_AT + 8]) == r.base
    && FromLe(buf[off + BASE_AT + 8..off + COUNT_AT]) == r.base
    && (Countable(r.header) ==> FromLe(buf[off + COUNT_AT..off + OVERHEAD]) == Count(MapOf(r.header)))
    && buf[off + OVERHEAD..off + OVERHEAD + |r.header|] == r.header
  }

  /** The layout of an instance record: 24 bytes, the base address twice, the count, the header. */
  lemma RecordLayout(buf: seq<byte>, off: nat, r: Record)
    requires HoldsRecord(buf, off, r)
    ensures off + 48 + |r.header| <= |buf|
    ensures FromLe(buf[off + 24..off + 32]) == r.base && FromLe(buf[off + 32..off + 40]) == r.base
    ensures Countable(r.header) ==> FromLe(buf[off + 40..off + 48]) == Count(MapOf(r.header))
    ensures buf[off + 48..off + 48 + |r.header|] == r.header
  {
    hide FromLe, Countable, Count, MapOf;
  }

  ghost predicate SameWindow(a: seq<byte>, b: seq<byte>, at: int, len: int) {
    |a| == |b| && forall i {:trigger b[i]} :: 0 <= i < |a| && at <= i < at + len ==> a[i] == b[i]
  }

  /** A volume whose window is unchanged is judged the same. */
  lemma SourceFrame(a: seq<byte>, b: seq<byte>, pl: Platform, hob: Hob)
    requires Placed(a, pl, hob) && SameWindow(a, b, hob.base - pl.deviceBase, hob.length)
    ensures Placed(b, pl, hob) && (HobOk(a, pl, hob) ==> HobOk(b, pl, hob))
    ensures HeaderReadable(a, hob.base - pl.deviceBase) && HeaderReadable(b, hob.base - pl.deviceBase)
    ensures Source(a, pl, hob) == Source(b, pl, hob)
    ensures ValidHeader(a, hob.base - pl.deviceBase) == ValidHeader(b, hob.base - pl.deviceBase)
  {
    var at := hob.base - pl.deviceBase;
    assert a[at + 40..at + 44] == b[at + 40..at + 44];
    assert a[at + 32..at + 40] == b[at + 32..at + 40];
    assert a[at + LENGTH_AT..at + CHECKSUM_AT] == b[at + LENGTH_AT..at + CHECKSUM_AT];
    if FieldsOk(a, at) {
      assert HeaderAt(a, at) == HeaderAt(b, at);
    }
  }

  ghost predicate SameVolume(a: seq<byte>, b: seq<byte>, pl: Platform, hob: Hob) {
    SameWindow(a, b, hob.base - pl.deviceBase, hob.length)
  }

  /** The header in flash validates as it is. */
  predicate Healthy(mem: seq<byte>, pl: Platform, hob: Hob) {
    Placed(mem, pl, hob) && ValidHeader(mem, hob.base - pl.deviceBase)
  }

  /** Byte `i` belongs to the first block of a known flash volume without a valid header. */
  ghost predicate InRepair(before: seq<byte>, pl: Platform, hob: Hob, i: int) {
    && IsFlash(pl, hob) && !Healthy(before, pl, hob) && Lookup(pl.media, hob.base).Some?
    && hob.base - pl.deviceBase <= i < hob.base - pl.deviceBase + pl.pcds.blockSize
  }

  /** Only bytes that a repair before block `k` may write have changed. */
  ghost predicate Confined(before: seq<byte>, now: seq<byte>, pl: Platform, hobs: seq<Hob>, k: nat) {
    && |now| == |before|
    && forall i {:trigger now[i]} :: 0 <= i < |now| && now[i] != before[i] ==>
         exists j {:trigger hobs[j]} :: 0 <= j < k && j < |hobs| && InRepair(before, pl, hobs[j], i)
  }

  /** Of the flash volumes, those from `k` on and those that were healthy are as they were, and nothing
      but the first blocks of damaged volumes has changed. */
  ghost predicate Untouched(before: seq<byte>, now: seq<byte>, pl: Platform, hobs: seq<Hob>, k: nat) {
    Confined(before, now, pl, hobs, k) &&
    forall j :: 0 <= j < |hobs| && IsFlash(pl, hobs[j]) && (k <= j || Healthy(before, pl, hobs[j])) ==>
      SameVolume(before, now, pl, hobs[j])
  }

  /** The image with the first block of a known volume repaired. */
  ghost function AfterRepair(mem: seq<byte>, pl: Platform, hob: Hob): (r: seq<byte>)
    ensures |r| == |mem|
  {
    var h := Lookup(pl.media, hob.base);
    if MediaOk(pl) && Placed(mem, pl, hob) && h.Some? then
      LookupInMedia(pl.media, hob.base);
      Splice(mem, hob.base - pl.deviceBase, Repaired(pl, h.value))
    else mem
  }

  /** The volume has a valid header in flash now, and if it was damaged before, then just its repair. */
  ghost predicate Restored(before: seq<byte>, now: seq<byte>, pl: Platform, hob: Hob) {
    && Healthy(now, pl, hob)
    && (!Healthy(before, pl, hob) ==> SameVolume(AfterRepair(before, pl, hob), now, pl, hob))
  }

  /** Every accepted volume before `k` is in order. */
  ghost predicate HealthySoFar(before: seq<byte>, now: seq<byte>, pl: Platform, hobs: seq<Hob>, k: nat) {
    forall j :: 0 <= j < k && j < |hobs| && IsFlash(pl, hobs[j]) && Source(before, pl, hobs[j]).Some? ==>
      Restored(before, now, pl, hobs[j])
  }

  /** A change confined to volume `k` is invisible in the other volumes. */
  lemma OtherVolume(a: seq<byte>, b: seq<byte>, pl: Platform, hobs: seq<Hob>, j: nat, k: nat)
    requires HobsApart(pl, hobs) && j < |hobs| && k < |hobs| && j != k
    requires IsFlash(pl, hobs[j]) && IsFlash(pl, hobs[k])
    requires SameOutside(a, b, hobs[k].base - pl.deviceBase, hobs[k].length)
    ensures SameVolume(a, b, pl, hobs[j])
  {
  }

  /** Repairing volume `k` leaves later and healthy volumes alone. */
  lemma RepairStep(before: seq<byte>, a: seq<byte>, b: seq<byte>, pl: Platform, hobs: seq<Hob>, k: nat)
    requires HobsOk(before, pl, hobs) && HobsApart(pl, hobs) && k < |hobs| && IsFlash(pl, hobs[k])
    requires Untouched(before, a, pl, hobs, k) && !Healthy(before, pl, hobs[k])
    requires Lookup(pl.media, hobs[k].base).Some? && pl.pcds.blockSize <= hobs[k].length
    requires SameOutside(a, b, hobs[k].base - pl.deviceBase, pl.pcds.blockSize)
    ensures SameOutside(a, b, hobs[k].base - pl.deviceBase, hobs[k].length)
    ensures Untouched(before, b, pl, hobs, k + 1)
  {
    hide HobOk, Lookup;
    WiderFrame(a, b, hobs[k].base - pl.deviceBase, pl.pcds.blockSize, hobs[k].length);
    ConfinedStep(before, a, b, pl, hobs, k);
    forall j | 0 <= j < |hobs| && IsFlash(pl, hobs[j]) && (k + 1 <= j || Healthy(before, pl, hobs[j]))
      ensures SameVolume(before, b, pl, hobs[j])
    {
      OtherVolume(a, b, pl, hobs, j, k);
    }
  }

  lemma WiderFrame(a: seq<byte>, b: seq<byte>, at: int, len: int, wider: int)
    requires SameOutside(a, b, at, len) && len <= wider
    ensures SameOutside(a, b, at, wider)
  {
  }

  lemma ConfinedStep(before: seq<byte>, a: seq<byte>, b: seq<byte>, pl: Platform, hobs: seq<Hob>, k: nat)
    requires Confined(before, a, pl, hobs, k) && k < |hobs| && IsFlash(pl, hobs[k])
    requires !Healthy(before, pl, hobs[k]) && Lookup(pl.media, hobs[k].base).Some?
    requires SameOutside(a, b, hobs[k].base - pl.deviceBase, pl.pcds.blockSize)
    ensures Confined(before, b, pl, hobs, k + 1)
  {
    hide Healthy, Lookup;
    forall i | 0 <= i < |b| && b[i] != before[i]
      ensures exists j {:trigger hobs[j]} :: 0 <= j < k + 1 && j < |hobs| && InRepair(before, pl, hobs[j], i)
    {
      if a[i] == before[i] {
        assert InRepair(before, pl, hobs[k], i);
      }
    }
  }

  lemma SameLength(a: seq<byte>, b: seq<byte>, at: int, len: int)
    requires SameOutside(a, b, at, len)
    ensures |a| == |b|
  {
  }

  /** Volumes that were made healthy stay so while volume `k` is repaired, and `k` joins them. */
  lemma HealthStep(before: seq<byte>, a: seq<byte>, b: seq<byte>, pl: Platform, hobs: seq<Hob>, k: nat)
    requires HobsOk(before, pl, hobs) && HobsApart(pl, hobs) && k < |hobs| && IsFlash(pl, hobs[k])
    requires HealthySoFar(before, a, pl, hobs, k)
    requires SameOutside(a, b, hobs[k].base - pl.deviceBase, hobs[k].length)
    requires Restored(before, b, pl, hobs[k])
    ensures HealthySoFar(before, b, pl, hobs, k + 1)
  {
    hide HobOk, SameOutside, Source, ValidHeader, HeaderReadable, AfterRepair;
    forall j | 0 <= j < k && IsFlash(pl, hobs[j]) && Source(before, pl, hobs[j]).Some?
      ensures Restored(before, b, pl, hobs[j])
    {
      OtherVolume(a, b, pl, hobs, j, k);
      SourceFrame(a, b, pl, hobs[j]);
    }
  }

  /** Repairing volume `k`, which is still as it was, restores it. */
  lemma RepairDone(before: seq<byte>, a: seq<byte>, pl: Platform, hobs: seq<Hob>, k: nat)
    requires MediaOk(pl) && k < |hobs| && IsFlash(pl, hobs[k]) && Untouched(before, a, pl, hobs, k)
    requires Placed(before, pl, hobs[k]) && Placed(a, pl, hobs[k]) && Lookup(pl.media, hobs[k].base).Some?
    ensures Restored(before, AfterRepair(a, pl, hobs[k]), pl, hobs[k])
  {
    hide Repaired, Placed, ValidHeader, MediaOk, FromLe, Lookup;
    assert SameVolume(before, a, pl, hobs[k]);
    RepairedHealthy(a, pl, hobs[k]);
  }

  /** A repaired volume is healthy. */
  lemma RepairedHealthy(mem: seq<byte>, pl: Platform, hob: Hob)
    requires MediaOk(pl) && Placed(mem, pl, hob) && Lookup(pl.media, hob.base).Some?
    ensures Media(hob.base, Lookup(pl.media, hob.base).value) in pl.media
    ensures var h := Lookup(pl.media, hob.base).value;
            Healthy(Splice(mem, hob.base - pl.deviceBase, Repaired(pl, h)), pl, hob)
  {
    hide Splice, Repaired, ValidHeader, HeaderOk, MediaOk, FromLe, WithChecksum, HeaderReadable;
    var (at, h) := (hob.base - pl.deviceBase, Lookup(pl.media, hob.base).value);
    LookupInMedia(pl.media, hob.base);
    RepairedData(pl, hob.base, h);
    RepairedParts(pl, h);
    RepairedHeader(mem, pl, at, h);
    RepairedIsValid(Splice(mem, at, Repaired(pl, h)), at, h);
  }

  // Repair of a known volume whose header fails validation.

  /** The variable store header that goes behind a repaired volume header. */
  function VarStore(pcds: Pcds, headerLength: nat): (r: seq<byte>)
    requires pcds.Sane() && headerLength <= pcds.variableSize
    ensures |r| == STORE_SIZE
  {
    pcds.variableGuid + Le(pcds.variableSize - headerLength, 4) + [0x5A, 0xFE] + Le(0, 2) + Le(0, 4)
  }

  /** What a reader of the variable store header finds: the GUID, the space behind the volume header, and
      the formatted and healthy marks. */
  lemma VarStoreFields(pcds: Pcds, headerLength: nat)
    requires pcds.Sane() && headerLength <= pcds.variableSize
    ensures var s := VarStore(pcds, headerLength);
            && s[0..16] == pcds.variableGuid && FromLe(s[16..20]) + headerLength == pcds.variableSize
            && s[20] == 0x5A && s[21] == 0xFE && forall i :: 22 <= i < STORE_SIZE ==> s[i] == 0
  {
    hide Le;
    var s := VarStore(pcds, headerLength);
    Limits();
    LeRoundTrip(pcds.variableSize - headerLength, 4);
    assert s[16..20] == Le(pcds.variableSize - headerLength, 4);
    ZeroLe(2);
    ZeroLe(4);
  }

  /** A repaired block: header with a good checksum, variable store header, blank rest. */
  function Repaired(pl: Platform, h: seq<byte>): (r: seq<byte>)
    requires MediaOk(pl) && |h| >= HEADER_SIZE
    requires |h| + STORE_SIZE <= pl.pcds.blockSize && |h| <= pl.pcds.variableSize
    ensures |r| == pl.pcds.blockSize
  {
    WithChecksum(h) + VarStore(pl.pcds, |h|) + Ones(pl.pcds.blockSize - |h| - STORE_SIZE)
  }

  /** The part of a repaired block that is programmed. */
  lemma RepairedData(pl: Platform, base: nat, h: seq<byte>)
    requires MediaOk(pl) && Media(base, h) in pl.media
    ensures pl.pcds.Sane() && |h| >= HEADER_SIZE && |h| <= pl.pcds.variableSize
    ensures |h| + STORE_SIZE <= pl.pcds.blockSize && pl.pcds.blockSize % SECTOR == 0
    ensures var data := WithChecksum(h) + VarStore(pl.pcds, |h|);
            Repaired(pl, h) == data + Ones(pl.pcds.blockSize - |data|)
  {
  }

  lemma LookupInMedia(media: seq<Media>, base: nat)
    requires Lookup(media, base).Some?
    ensures Media(base, Lookup(media, base).value) in media
  {
  }

  lemma EraseThenProgram(mem: seq<byte>, at: nat, len: nat, data: seq<byte>)
    requires at + len <= |mem| && |data| <= len
    ensures Programmed(Erased(mem, at, len), at, data) == Splice(mem, at, data + Ones(len - |data|))
  {
    var blank := Erased(mem, at, len);
    assert blank[at..at + |data|] == Ones(|data|);
    ProgramBlank(blank, at, data);
  }

  lemma RepairedParts(pl: Platform, h: seq<byte>)
    requires MediaOk(pl) && (exists m :: m in pl.media && m.header == h)
    ensures var (r, n) := (Repaired(pl, h), |h|);
            && HeaderOk(h) && HEADER_SIZE <= n && pl.pcds.Sane() && n <= pl.pcds.variableSize
            && n + STORE_SIZE <= |r| == pl.pcds.blockSize
            && r[0..n] == WithChecksum(h)
            && r[n..n + STORE_SIZE] == VarStore(pl.pcds, n)
            && r[n + STORE_SIZE..|r|] == Ones(|r| - n - STORE_SIZE)
  {
    hide WithChecksum, VarStore;
  }

  lemma RepairedHeader(mem: seq<byte>, pl: Platform, at: nat, h: seq<byte>)
    requires MediaOk(pl) && (exists m :: m in pl.media && m.header == h)
    requires at + pl.pcds.blockSize <= |mem|
    ensures Splice(mem, at, Repaired(pl, h))[at..at + |h|] == WithChecksum(h)
  {
    hide Splice, Repaired, WithChecksum, VarStore, MediaOk, Ones;
    RepairedParts(pl, h);
    SpliceWindow(mem, at, Repaired(pl, h), 0, |h|);
  }

  /** Erase the first block of the volume and write the healthy header and variable store back.
      `asserted` says that one of the two ASSERTs behind the steps fires; a build without assertions goes
      on all the same. If none fires, the healthy header is in flash, whatever the part did. */
  method RepairVolume(spi: SpiProtocol, pl: Platform, base: nat, length: nat, header: seq<byte>)
    returns (asserted: bool)
    requires spi.Whole() && MediaOk(pl) && Media(base, header) in pl.media
    requires pl.deviceBase <= base && base != 0 && (base - pl.deviceBase) % SECTOR == 0
    requires base - pl.deviceBase + length <= |spi.mem| && pl.pcds.blockSize <= length
    modifies spi
    ensures SameOutside(old(spi.mem), spi.mem, base - pl.deviceBase, pl.pcds.blockSize)
    ensures !asserted ==>
              spi.mem[base - pl.deviceBase..base - pl.deviceBase + |header|] == WithChecksum(header)
    ensures spi.FaultFree() ==>
              !asserted && spi.mem == Splice(old(spi.mem), base - pl.deviceBase, Repaired(pl, header))
  {
    hide Splice, Erased, Programmed, SameOutside, EraseStoppedAt, MediaOk, Repaired, WithChecksum, VarStore;
    RepairedData(pl, base, header);
    var at, blockSize := base - pl.deviceBase, pl.pcds.blockSize;
    var fixed := WithChecksum(header);
    var data := fixed + VarStore(pl.pcds, |header|);
    var status; ghost var done;
    status, done := SectorsErase(spi, pl.deviceBase, base, blockSize);
    ghost var mid := spi.mem;
    StoppedInside(old(spi.mem), mid, at, blockSize, done);
    asserted := status != Success;
    status := ProgramBuffer(spi, pl.deviceBase, data, base, 0);
    SameOutsideTrans(old(spi.mem), mid, spi.mem, at, blockSize, |data|);
    EraseThenProgram(old(spi.mem), at, blockSize, data);
    RepairedHeader(old(spi.mem), pl, at, header);
    asserted := asserted || spi.mem[at..at + |header|] != fixed;
  }

  lemma StoppedInside(a: seq<byte>, b: seq<byte>, at: nat, len: nat, done: nat)
    requires EraseStoppedAt(a, b, at, len, done)
    ensures SameOutside(a, a, at, len) && SameOutside(a, b, at, len)
  {
  }

  /** What the flash holds after a repair: a header that validates, then the variable store header,
      then blank bytes up to the end of the block. */
  lemma RepairRestores(mem: seq<byte>, pl: Platform, at: nat, h: seq<byte>)
    requires MediaOk(pl) && (exists m :: m in pl.media && m.header == h)
    requires at + pl.pcds.blockSize <= |mem|
    ensures var new_ := Splice(mem, at, Repaired(pl, h));
            var end := at + |h| + STORE_SIZE;
            && HeaderReadable(new_, at) && ValidHeader(new_, at)
            && HeaderLength(new_, at) == |h|
            && (forall i :: 0 <= i < |h| && i != 50 && i != 51 ==> new_[at + i] == h[i])
            && new_[at + |h|..end] == VarStore(pl.pcds, |h|)
            && new_[at + |h|..at + |h| + 16] == pl.pcds.variableGuid
            && FromLe(new_[at + |h| + 16..at + |h| + 20]) + |h| == pl.pcds.variableSize
            && new_[at + |h| + 20] == 0x5A && new_[at + |h| + 21] == 0xFE
            && new_[end..at + pl.pcds.blockSize] == Ones(pl.pcds.blockSize - |h| - STORE_SIZE)
  {
    hide Splice, Repaired, WithChecksum, VarStore, HeaderOk, ValidHeader, HeaderReadable, FromLe, MediaOk, Ones;
    RepairedParts(pl, h);
    var (r, n) := (Repaired(pl, h), |h|);
    SpliceWindow(mem, at, r, 0, n);
    ChecksumOnly(Splice(mem, at, r), at, h);
    SpliceWindow(mem, at, r, n, n + STORE_SIZE);
    SpliceWindow(mem, at, r, n + STORE_SIZE, |r|);
    RepairedIsValid(Splice(mem, at, r), at, h);
    StoreFields(Splice(mem, at, r), at + n, pl.pcds, n);
  }

  /** The fields of a variable store header that lies at `at`. */
  lemma StoreFields(mem: seq<byte>, at: nat, pcds: Pcds, n: nat)
    requires pcds.Sane() && n <= pcds.variableSize && at + STORE_SIZE <= |mem|
    requires mem[at..at + STORE_SIZE] == VarStore(pcds, n)
    ensures mem[at..at + 16] == pcds.variableGuid && FromLe(mem[at + 16..at + 20]) + n == pcds.variableSize
    ensures mem[at + 20] == 0x5A && mem[at + 21] == 0xFE
  {
    hide VarStore, FromLe;
    VarStoreFields(pcds, n);
    var s := mem[at..at + STORE_SIZE];
    SliceOfSlice(mem, at, STORE_SIZE, 0, 16);
    SliceOfSlice(mem, at, STORE_SIZE, 16, 4);
    assert s[20] == mem[at + 20] && s[21] == mem[at + 21];
  }

  lemma OkIsPlaced(mem: seq<byte>, pl: Platform, hobs: seq<Hob>)
    requires HobsOk(mem, pl, hobs)
    ensures AllPlaced(mem, pl, hobs)
  {
  }

  /** The sizing pass of FvbInitialize. */
  method SizeBuffer(mem: seq<byte>, pl: Platform, hobs: seq<Hob>) returns (bufferSize: nat)
    requires AllPlaced(mem, pl, hobs)
    ensures var rs := Accepted(mem, pl, hobs); bufferSize == RecordOffset(rs, |rs|)
  {
    hide Source, ValidHeader, HeaderReadable, Lookup;
    bufferSize := 0;
    var k := 0;
    ghost var rs, n: nat := Accepted(mem, pl, hobs), 0;
    while k < |hobs|
      invariant 0 <= k <= |hobs| && n <= |rs|
      invariant Accepted(mem, pl, hobs, k) == rs[n..]
      invariant bufferSize == RecordOffset(rs, n)
    {
      var base := hobs[k].base;
      match pl.space(base) {
        case Missing => break;
        case OtherSpace =>
        case MemoryMappedIo =>
          var header := FindHeader(mem, pl, hobs[k]);
          if header.Some? {
            bufferSize := bufferSize + OVERHEAD + |header.value|;
            assert rs[n..][1..] == rs[n + 1..] && rs[n] == rs[n..][0];
            n := n + 1;
          }
      }
      k := k + 1;
    }
  }

  /** The header check that both passes make: validate what is in flash, else look the address up. */
  method FindHeader(mem: seq<byte>, pl: Platform, hob: Hob) returns (header: Option<seq<byte>>)
    requires Placed(mem, pl, hob)
    ensures HeaderReadable(mem, hob.base - pl.deviceBase)
    ensures header == Source(mem, pl, hob)
  {
    var status := ValidateFvHeader(mem, hob.base - pl.deviceBase);
    if status == Success {
      return Some(HeaderAt(mem, hob.base - pl.deviceBase));
    }
    header := GetFvbInfo(pl.media, hob.base);
  }

  lemma {:induction false} RecordOffsetMonotone(rs: seq<Record>, j: nat, k: nat)
    requires j <= k <= |rs|
    ensures RecordOffset(rs, j) <= RecordOffset(rs, k)
    ensures j < k ==> RecordOffset(rs, j) + OVERHEAD + |rs[j].header| <= RecordOffset(rs, k)
    decreases k - j
  {
    if j == k {
    } else {
      RecordOffsetMonotone(rs, j, k - 1);
    }
  }

  lemma NextRecord(rs: seq<Record>, k: nat)
    requires k < |rs|
    ensures RecordOffset(rs, 0) == 0
    ensures RecordOffset(rs, k + 1) == RecordOffset(rs, k) + OVERHEAD + |rs[k].header|
  {
  }

  /** Writing behind a record leaves it in place. */
  lemma HoldsFrame(a: seq<byte>, b: seq<byte>, off: nat, r: Record, end: nat)
    requires HoldsRecord(a, off, r) && off + OVERHEAD + |r.header| <= end <= |a| == |b|
    requires a[..end] == b[..end]
    ensures HoldsRecord(b, off, r)
  {
    forall lo, hi | 0 <= lo <= hi <= end ensures a[lo..hi] == b[lo..hi] {
      assert a[lo..hi] == a[..end][lo..hi];
    }
  }

  /** The header length that GetFvbInstance reads from a record is that of its header. */
  lemma RecordLength(buf: seq<byte>, off: nat, r: Record)
    requires HoldsRecord(buf, off, r) && Walkable(r.header)
    ensures off + OVERHEAD + CHECKSUM_AT <= |buf|
    ensures FromLe(buf[off + OVERHEAD + LENGTH_AT..off + OVERHEAD + CHECKSUM_AT]) == |r.header|
  {
    SliceOfSlice(buf, off + OVERHEAD, |r.header|, LENGTH_AT, 2);
  }

  /** Whatever the buffer holds around it, the length that is read back from a stored header is the
      length of the header. */
  ghost predicate ReadsBack(h: seq<byte>) {
    forall record: seq<byte> :: CHECKSUM_AT <= |record| && |h| <= |record| && record[..|h|] == h ==>
      FromLe(record[LENGTH_AT..CHECKSUM_AT]) == |h|
  }

  /** The walk over the stored lengths can rely on a header exactly if it contains its own length field;
      behind a shorter one it steps by whatever the buffer held before. */
  lemma ReadsBackExactly(h: seq<byte>)
    requires |h| >= CHECKSUM_AT ==> FromLe(h[LENGTH_AT..CHECKSUM_AT]) == |h|
    ensures ReadsBack(h) <==> |h| >= CHECKSUM_AT
  {
    if |h| >= CHECKSUM_AT {
      forall record: seq<byte> | |h| <= |record| && record[..|h|] == h
        ensures CHECKSUM_AT <= |record| && FromLe(record[LENGTH_AT..CHECKSUM_AT]) == |h|
      {
        assert record[LENGTH_AT..CHECKSUM_AT] == h[LENGTH_AT..CHECKSUM_AT];
      }
    } else {
      var record := h + Ones(CHECKSUM_AT - |h|);
      assert record[..|h|] == h;
      HighByte(record[LENGTH_AT..CHECKSUM_AT]);
    }
  }

  lemma HighByte(s: seq<byte>)
    requires |s| == 2 && s[1] == 0xFF
    ensures FromLe(s) >= 0xFF00
  {
    assert FromLe(s) == s[0] as int + 256 * FromLe(s[1..]);
    assert FromLe(s[1..]) == s[1] as int + 256 * FromLe(s[1..][1..]);
  }

  /** 64 bytes of flash with nothing but the signature and the revision set. */
  function BareHeader(): (h: seq<byte>)
    ensures |h| == HEADER_SIZE
  {
    var zeros: seq<byte> := seq(HEADER_SIZE, _ => 0);
    Splice<byte>(zeros, 40, SIGNATURE)[55 := REVISION]
  }

  /** Validation accepts them as a header of length zero, which does not contain its length field. */
  lemma BareHeaderValidates()
    ensures var mem := BareHeader();
            && HeaderReadable(mem, 0) && ValidHeader(mem, 0)
            && HeaderLength(mem, 0) == 0 && HeaderAt(mem, 0) == [] && !ReadsBack([])
  {
    hide BareHeader;
    var mem := BareHeader();
    BareBytes();
    ZeroBytes(mem[48..50]);
    ZeroBytes(mem[32..40]);
    ReadsBackExactly([]);
  }

  lemma BareBytes()
    ensures var mem := BareHeader();
            && mem[55] == REVISION && mem[40..44] == SIGNATURE
            && (forall i :: 0 <= i < 2 ==> mem[48..50][i] == 0)
            && (forall i :: 0 <= i < 8 ==> mem[32..40][i] == 0)
  {
  }

  lemma {:induction false} ZeroBytes(s: seq<byte>)
    requires forall i :: 0 <= i < |s| ==> s[i] == 0
    ensures FromLe(s) == 0
  {
    if s == [] {
    } else {
      ZeroBytes(s[1..]);
    }
  }

  lemma MapEnd(h: seq<byte>) returns (end: nat)
    requires Countable(h)
    ensures end < |MapOf(h)| && MapOf(h)[end].numBlocks == 0
  {
    end :| end < |MapOf(h)| && MapOf(h)[end].numBlocks == 0;
  }

  lemma CountFromStart(m: seq<Entry>)
    ensures m[0..] == m
  {
  }

  /** Map entry `k` of a header that is stored at `at`, as the counting loop reads it. */
  lemma StoredEntry(buf: seq<byte>, at: nat, h: seq<byte>, k: nat, end: nat)
    requires Countable(h) && at + |h| <= |buf| && buf[at..at + |h|] == h
    requires k <= end < |MapOf(h)| && MapOf(h)[end].numBlocks == 0
    ensures at + MAP_AT + 8 * k + 8 <= |buf|
    ensures FromLe(buf[at + MAP_AT + 8 * k..at + MAP_AT + 8 * k + 4]) == MapOf(h)[k].numBlocks
    ensures MapOf(h)[k].numBlocks == 0 ==> Count(MapOf(h)[k..]) == 0
    ensures MapOf(h)[k].numBlocks != 0 ==>
              k < end && Count(MapOf(h)[k..]) == MapOf(h)[k].numBlocks + Count(MapOf(h)[k + 1..])
  {
    SliceOfSlice(buf, at, |h|, MAP_AT + 8 * k, 4);
    var m := MapOf(h);
    assert m[k..][0] == m[k] && m[k..][1..] == m[k + 1..];
  }

  /** Four patches to disjoint windows are all found in the result. */
  lemma FourPatches(buf: seq<byte>, off: nat, p1: nat, w1: seq<byte>, p2: nat, w2: seq<byte>, p3: nat, w3: seq<byte>,
                    p4: nat, w4: seq<byte>)
    requires off <= p1 && p1 + |w1| <= p2 && p2 + |w2| <= p4 && p4 + |w4| <= p3 && p3 + |w3| <= |buf|
    ensures var b3 := Splice(Splice(Splice(buf, p1, w1), p2, w2), p3, w3);
            var b4 := Splice(b3, p4, w4);
            && b3[p3..p3 + |w3|] == w3 && b4[..off] == buf[..off]
            && b4[p1..p1 + |w1|] == w1 && b4[p2..p2 + |w2|] == w2
            && b4[p3..p3 + |w3|] == w3 && b4[p4..p4 + |w4|] == w4
  {
  }

  /** The four fields of a record, written in the order that initialisation writes them. */
  lemma RecordWritten(buf: seq<byte>, off: nat, r: Record, count: nat)
    requires off + OVERHEAD + |r.header| <= |buf|
    requires r.base < U64 && count < U64 && (Countable(r.header) ==> count == Count(MapOf(r.header)))
    ensures var b1 := Splice(buf, off + BASE_AT, Le(r.base, 8));
            var b2 := Splice(b1, off + BASE_AT + 8, Le(r.base, 8));
            var b3 := Splice(b2, off + OVERHEAD, r.header);
            var b4 := Splice(b3, off + COUNT_AT, Le(count, 8));
            && b3[off + OVERHEAD..off + OVERHEAD + |r.header|] == r.header
            && HoldsRecord(b4, off, r) && b4[..off] == buf[..off]
  {
    hide Splice, Countable, MapOf, Le;
    var word := Le(r.base, 8);
    Limits();
    LeRoundTrip(r.base, 8);
    LeRoundTrip(count, 8);
    FourPatches(buf, off, off + BASE_AT, word, off + BASE_AT + 8, word, off + OVERHEAD, r.header,
                off + COUNT_AT, Le(count, 8));
  }

  /** 32-bit counts of a header below 64 KiB add up without wrapping. */
  lemma {:induction false} CountBound(m: seq<Entry>)
    requires forall i :: 0 <= i < |m| ==> m[i].numBlocks < 0x1_0000_0000
    ensures Count(m) <= 0x1_0000_0000 * |m|
  {
    if m == [] {
    } else {
      CountBound(m[1..]);
    }
  }

  lemma MapBound(h: seq<byte>)
    requires Walkable(h)
    ensures Count(MapOf(h)) < U64 && |h| < 0x1_0000
  {
    Limits();
    FromLeBound(h[LENGTH_AT..CHECKSUM_AT]);
    var m := MapOf(h);
    forall i | 0 <= i < |m| ensures m[i].numBlocks < 0x1_0000_0000 {
      Limits();
      FromLeBound(h[MAP_AT + 8 * i..MAP_AT + 8 * i + 4]);
    }
    CountBound(m);
  }

  /** The first `n` records lie in the buffer one behind the other. */
  ghost predicate Stored(buf: seq<byte>, rs: seq<Record>, n: nat) {
    && n <= |rs|
    && forall i {:trigger rs[i]} :: 0 <= i < n ==> HoldsRecord(buf, RecordOffset(rs, i), rs[i])
  }

  lemma StoredOne(buf: seq<byte>, rs: seq<Record>, n: nat, i: nat)
    requires Stored(buf, rs, n) && i < n
    ensures HoldsRecord(buf, RecordOffset(rs, i), rs[i])
  {
  }

  /** Laying down record `n` behind the first `n` ones. */
  lemma StoreNext(a: seq<byte>, b: seq<byte>, rs: seq<Record>, n: nat)
    requires Stored(a, rs, n) && n < |rs| && |a| == |b|
    requires RecordOffset(rs, n) <= |a| && a[..RecordOffset(rs, n)] == b[..RecordOffset(rs, n)]
    requires HoldsRecord(b, RecordOffset(rs, n), rs[n])
    ensures Stored(b, rs, n + 1)
  {
    hide RecordOffset, HoldsRecord;
    forall i | 0 <= i < n ensures HoldsRecord(b, RecordOffset(rs, i), rs[i]) {
      RecordOffsetMonotone(rs, i, n);
      HoldsFrame(a, b, RecordOffset(rs, i), rs[i], RecordOffset(rs, n));
    }
  }

  ghost predicate AllWalkable(rs: seq<Record>) {
    forall i :: 0 <= i < |rs| ==> Walkable(rs[i].header) && rs[i].base < U64
  }

  /** The header that validation accepts in flash, if it is long enough. */
  lemma HeaderWalkable(mem: seq<byte>, at: nat)
    requires at + HEADER_SIZE <= |mem| && CHECKSUM_AT <= HeaderLength(mem, at) <= |mem| - at
    ensures Walkable(HeaderAt(mem, at))
  {
    SliceOfSlice(mem, at, HeaderLength(mem, at), LENGTH_AT, 2);
  }

  lemma {:induction false} AcceptedWalkable(mem: seq<byte>, pl: Platform, hobs: seq<Hob>, k: nat)
    requires HobsOk(mem, pl, hobs) && MediaOk(pl) && k <= |hobs|
    ensures AllWalkable(Accepted(mem, pl, hobs, k))
    decreases |hobs| - k
  {
    hide Walkable, Countable, HeaderAt, WordSum;
    if k == |hobs| {
    } else {
      AcceptedWalkable(mem, pl, hobs, k + 1);
      if IsFlash(pl, hobs[k]) {
        SourceWalkable(mem, pl, hobs[k]);
      }
    }
  }

  lemma SourceWalkable(mem: seq<byte>, pl: Platform, hob: Hob)
    requires HobOk(mem, pl, hob) && MediaOk(pl)
    ensures hob.base < U64 && (Source(mem, pl, hob).Some? ==> Walkable(Source(mem, pl, hob).value))
  {
    hide Walkable, Countable, WordSum;
    if ValidHeader(mem, hob.base - pl.deviceBase) {
      HeaderWalkable(mem, hob.base - pl.deviceBase);
    } else if Lookup(pl.media, hob.base).Some? {
      LookupInMedia(pl.media, hob.base);
    }
  }

  lemma NoneLeft(mem: seq<byte>, pl: Platform, hobs: seq<Hob>)
    requires HobsOk(mem, pl, hobs)
    ensures Accepted(mem, pl, hobs, |hobs|) == []
  {
  }

  /** What the second pass does with hand-off block `k`. */
  lemma NextAccepted(mem: seq<byte>, pl: Platform, hobs: seq<Hob>, k: nat, rs: seq<Record>, n: nat)
    requires HobsOk(mem, pl, hobs) && k < |hobs| && n <= |rs|
    requires Accepted(mem, pl, hobs, k) == rs[n..]
    ensures pl.space(hobs[k].base) == Missing ==> n == |rs|
    ensures pl.space(hobs[k].base) == OtherSpace ==> Accepted(mem, pl, hobs, k + 1) == rs[n..]
    ensures IsFlash(pl, hobs[k]) ==>
              match Source(mem, pl, hobs[k])
              case None => Accepted(mem, pl, hobs, k + 1) == rs[n..]
              case Some(h) => n < |rs| && rs[n] == Record(hobs[k].base, h)
                              && Accepted(mem, pl, hobs, k + 1) == rs[n + 1..]
  {
    hide Source, HobOk;
    if n < |rs| {
      assert rs[n..][0] == rs[n] && rs[n..][1..] == rs[n + 1..];
    }
  }

  /** The second pass finds a volume as the first one did. */
  lemma CurrentHob(before: seq<byte>, now: seq<byte>, pl: Platform, hobs: seq<Hob>, k: nat)
    requires HobsOk(before, pl, hobs) && k < |hobs| && IsFlash(pl, hobs[k])
    requires Untouched(before, now, pl, hobs, k)
    ensures Placed(before, pl, hobs[k]) && Placed(now, pl, hobs[k])
    ensures Source(before, pl, hobs[k]) == Source(now, pl, hobs[k])
    ensures Healthy(before, pl, hobs[k]) == Healthy(now, pl, hobs[k])
    ensures Healthy(now, pl, hobs[k]) ==>
              hobs[k].base - pl.deviceBase + HeaderLength(now, hobs[k].base - pl.deviceBase) <= |now|
  {
    hide Source, WordSum, HeaderAt;
    SourceFrame(before, now, pl, hobs[k]);
  }

  lemma LaterUntouched(before: seq<byte>, now: seq<byte>, pl: Platform, hobs: seq<Hob>, j: nat, k: nat)
    requires Untouched(before, now, pl, hobs, j) && j <= k
    ensures Untouched(before, now, pl, hobs, k)
  {
  }

  /** Nothing repaired in this round: volume `k` is healthy already or not accepted. */
  lemma SkipStep(before: seq<byte>, now: seq<byte>, pl: Platform, hobs: seq<Hob>, k: nat)
    requires HealthySoFar(before, now, pl, hobs, k) && k < |hobs|
    requires IsFlash(pl, hobs[k]) && Source(before, pl, hobs[k]).Some? ==>
               Healthy(before, pl, hobs[k]) && Healthy(now, pl, hobs[k])
    ensures HealthySoFar(before, now, pl, hobs, k + 1)
  {
  }

  lemma Start(before: seq<byte>, pl: Platform, hobs: seq<Hob>, buf: seq<byte>, rs: seq<Record>)
    ensures Untouched(before, before, pl, hobs, 0) && HealthySoFar(before, before, pl, hobs, 0)
    ensures Stored(buf, rs, 0) && RecordOffset(rs, 0) == 0 && rs[0..] == rs
  {
  }

  /** The repair of volume `k` in the second pass. */
  method RepairHob(spi: SpiProtocol, pl: Platform, hobs: seq<Hob>, k: nat, header: seq<byte>,
                   ghost before: seq<byte>)
    requires spi.Whole() && MediaOk(pl) && HobsOk(before, pl, hobs) && HobsApart(pl, hobs)
    requires k < |hobs| && IsFlash(pl, hobs[k]) && !Healthy(before, pl, hobs[k])
    requires Placed(spi.mem, pl, hobs[k]) && Lookup(pl.media, hobs[k].base) == Some(header)
    requires Placed(before, pl, hobs[k]) && pl.pcds.blockSize <= hobs[k].length
    requires Untouched(before, spi.mem, pl, hobs, k)
    requires spi.FaultFree() ==> HealthySoFar(before, spi.mem, pl, hobs, k)
    modifies spi
    ensures |spi.mem| == |old(spi.mem)|
    ensures Untouched(before, spi.mem, pl, hobs, k + 1)
    ensures spi.FaultFree() ==> HealthySoFar(before, spi.mem, pl, hobs, k + 1)
  {
    hide HobOk, Repaired, Splice, SameOutside, MediaOk, HobsApart, Untouched, HealthySoFar, Healthy, FieldsOk,
         HeaderLength, Lookup;
    var base, length := hobs[k].base, hobs[k].length;
    ghost var was := spi.mem;
    LookupInMedia(pl.media, base);
    var asserted := RepairVolume(spi, pl, base, length, header);
    SameLength(was, spi.mem, base - pl.deviceBase, pl.pcds.blockSize);
    RepairStep(before, was, spi.mem, pl, hobs, k);
    if spi.FaultFree() {
      RepairDone(before, was, pl, hobs, k);
      HealthStep(before, was, spi.mem, pl, hobs, k);
    }
  }

  /** One volume of the second pass: keep its header if it is valid, else repair the volume from the
      table or leave it out. */
  method Restore(spi: SpiProtocol, pl: Platform, hobs: seq<Hob>, k: nat, ghost before: seq<byte>)
    returns (header: Option<seq<byte>>)
    requires spi.Whole() && MediaOk(pl) && HobsOk(before, pl, hobs) && HobsApart(pl, hobs)
    requires k < |hobs| && IsFlash(pl, hobs[k])
    requires Untouched(before, spi.mem, pl, hobs, k)
    requires spi.FaultFree() ==> HealthySoFar(before, spi.mem, pl, hobs, k)
    modifies spi
    ensures |spi.mem| == |old(spi.mem)|
    ensures header == Source(before, pl, hobs[k])
    ensures Untouched(before, spi.mem, pl, hobs, k + 1)
    ensures spi.FaultFree() ==> HealthySoFar(before, spi.mem, pl, hobs, k + 1)
  {
    hide HobOk, Repaired, Splice, SameOutside, Walkable, Countable, MediaOk, ValidHeader, HobsApart, Untouched,
         HealthySoFar;
    var base := hobs[k].base;
    CurrentHob(before, spi.mem, pl, hobs, k);
    var status := ValidateFvHeader(spi.mem, base - pl.deviceBase);
    if status == Success {
      header := Some(HeaderAt(spi.mem, base - pl.deviceBase));
      LaterUntouched(before, spi.mem, pl, hobs, k, k + 1);
    } else {
      header := GetFvbInfo(pl.media, base);
      if header.None? {
        LaterUntouched(before, spi.mem, pl, hobs, k, k + 1);
      } else {
        RepairHob(spi, pl, hobs, k, header.value, before);
        return;
      }
    }
    if spi.FaultFree() {
      SkipStep(before, spi.mem, pl, hobs, k);
    }
  }

  /** The module global: the packed instance records and how many there are. */
  class FvbGlobal {
    var numFv: nat
    var buffer: array<byte>
    ghost var records: seq<Record>

    /** `buffer` is exactly filled by the records, one behind the other. */
    ghost predicate Valid()
      reads this, buffer
    {
      && numFv == |records|
      && buffer.Length == RecordOffset(records, numFv)
      && AllWalkable(records)
      && Stored(buffer[..], records, numFv)
    }

    /** The counting loop over the block map of the header stored at `at`. */
    method CountBlocks(at: nat, ghost h: seq<byte>) returns (numOfBlocks: nat)
      requires Countable(h) && at + |h| <= buffer.Length && buffer[at..at + |h|] == h
      ensures numOfBlocks == Count(MapOf(h))
    {
      hide FromLe, Count, MapOf, Countable;
      ghost var m := MapOf(h);
      ghost var end := MapEnd(h);
      numOfBlocks := 0;
      var k := 0;
      CountFromStart(m);
      while true
        invariant 0 <= k <= end
        invariant Count(m) == numOfBlocks + Count(m[k..])
        decreases end - k
      {
        StoredEntry(buffer[..], at, h, k, end);
        var numBlocks := FromLe(buffer[at + MAP_AT + 8 * k..at + MAP_AT + 8 * k + 4]);
        if numBlocks == 0 {
          return;
        }
        numOfBlocks := numOfBlocks + numBlocks;
        k := k + 1;
      }
    }

    /** Lay down the record of an accepted volume at `off`. Without a zero count inside the header the
        counting loop runs on into what lies behind it; `stray` is the count that it then comes to. */
    method StoreRecord(off: nat, r: Record, stray: nat)
      requires Walkable(r.header) && r.base < U64
      requires off + OVERHEAD + |r.header| <= buffer.Length
      modifies buffer
      ensures HoldsRecord(buffer[..], off, r)
      ensures buffer[..off] == old(buffer[..off])
    {
      hide Splice, Le, FromLe, Count, MapOf, HoldsRecord, Walkable, Countable;
      MapBound(r.header);
      ghost var count := if Countable(r.header) then Count(MapOf(r.header)) else stray % U64;
      RecordWritten(buffer[..], off, r, count);
      Put(buffer, off + BASE_AT, Le(r.base, 8));
      Put(buffer, off + BASE_AT + 8, Le(r.base, 8));
      Put(buffer, off + OVERHEAD, r.header);
      assert buffer[off + OVERHEAD..off + OVERHEAD + |r.header|]
          == buffer[..][off + OVERHEAD..off + OVERHEAD + |r.header|];
      var numOfBlocks := stray % U64;
      if Countable(r.header) {
        numOfBlocks := CountBlocks(off + OVERHEAD, r.header);
      }
      Put(buffer, off + COUNT_AT, Le(numOfBlocks, 8));
      assert buffer[..][..off] == buffer[..off];
    }

    /** Lay down the next record, behind those that are there. */
    method AppendRecord(off: nat, r: Record, stray: nat) returns (next: nat)
      requires numFv < |records| && records[numFv] == r && off == RecordOffset(records, numFv)
      requires AllWalkable(records) && buffer.Length == RecordOffset(records, |records|)
      requires Stored(buffer[..], records, numFv)
      modifies this`numFv, buffer
      ensures numFv == old(numFv) + 1 && next == RecordOffset(records, numFv)
      ensures Stored(buffer[..], records, numFv)
    {
      hide HoldsRecord, Stored, RecordOffset, Walkable;
      ghost var was := buffer[..];
      RecordOffsetMonotone(records, numFv, |records|);
      NextRecord(records, numFv);
      RecordOffsetMonotone(records, numFv + 1, |records|);
      StoreRecord(off, r, stray);
      StoreNext(was, buffer[..], records, numFv);
      numFv := numFv + 1;
      next := off + OVERHEAD + |r.header|;
    }

    /** What `GetFvbInstance` reads at record `k`. */
    lemma RecordHeld(k: nat)
      requires Valid() && k < numFv
      ensures var off := RecordOffset(records, k);
              && HoldsRecord(buffer[..], off, records[k])
              && off + OVERHEAD + CHECKSUM_AT <= buffer.Length
              && FromLe(buffer[off + OVERHEAD + LENGTH_AT..off + OVERHEAD + CHECKSUM_AT]) == |records[k].header|
              && RecordOffset(records, k + 1) == off + OVERHEAD + |records[k].header|
    {
      hide RecordOffset, Count, MapOf, FromLe, Stored;
      NextRecord(records, k);
      var off := RecordOffset(records, k);
      StoredOne(buffer[..], records, numFv, k);
      RecordLength(buffer[..], off, records[k]);
      assert buffer[..][off + OVERHEAD + LENGTH_AT..off + OVERHEAD + CHECKSUM_AT]
          == buffer[off + OVERHEAD + LENGTH_AT..off + OVERHEAD + CHECKSUM_AT];
    }

    /** GetFvbInstance: the walk over the header lengths stored in the records themselves ends at the
        record asked for. */
    method GetFvbInstance(instance: nat) returns (status: Status, offset: nat)
      requires Valid()
      ensures status == if instance < numFv then Success else InvalidParameter
      ensures status == Success ==>
                && offset == RecordOffset(records, instance)
                && HoldsRecord(buffer[..], offset, records[instance])
    {
      hide HoldsRecord, Walkable, FromLe, RecordOffset;
      if instance >= numFv {
        return InvalidParameter, 0;
      }
      NextRecord(records, 0);
      offset := 0;
      var left := instance;
      while left > 0
        invariant 0 <= left <= instance
        invariant offset == RecordOffset(records, instance - left)
      {
        RecordHeld(instance - left);
        var from := offset + OVERHEAD;
        offset := from + FromLe(buffer[from + LENGTH_AT..from + CHECKSUM_AT]);
        left := left - 1;
      }
      RecordHeld(instance);
      return Success, offset;
    }

    /** FvbInitialize, as far as the instance records go. The records laid down by the second pass fill
        the buffer sized by the first one exactly, whatever the repairs in between did to the flash;
        volumes with valid headers are not touched. On a fault-free part every accepted volume ends up
        with a valid header. */
    method Initialize(spi: SpiProtocol, pl: Platform, hobs: seq<Hob>, stray: nat -> nat)
      requires spi.Whole() && MediaOk(pl) && HobsOk(spi.mem, pl, hobs) && HobsApart(pl, hobs)
      modifies this, spi
      ensures fresh(buffer) && Valid()
      ensures records == Accepted(old(spi.mem), pl, hobs)
      ensures Untouched(old(spi.mem), spi.mem, pl, hobs, |hobs|)
      ensures spi.FaultFree() && (forall j :: 0 <= j < |hobs| ==> pl.space(hobs[j].base) != Missing) ==>
                HealthySoFar(old(spi.mem), spi.mem, pl, hobs, |hobs|)
    {
      hide HobOk, Source, HoldsRecord, Repaired, Splice, SameOutside, Walkable, Countable, MediaOk, Healthy, Accepted,
           RecordOffset, HobsApart, Untouched, HealthySoFar, Stored;
      ghost var before := spi.mem;
      OkIsPlaced(before, pl, hobs);
      var bufferSize := SizeBuffer(spi.mem, pl, hobs);
      AcceptedWalkable(before, pl, hobs, 0);
      buffer := new byte[bufferSize];
      records := Accepted(before, pl, hobs);
      numFv := 0;
      var off: nat, k := 0, 0;
      Start(before, pl, hobs, buffer[..], records);
      while k < |hobs|
        invariant 0 <= k <= |hobs| && numFv <= |records|
        invariant spi.Whole() && fresh(buffer) && buffer.Length == RecordOffset(records, |records|)
        invariant records == Accepted(before, pl, hobs)
        invariant Accepted(before, pl, hobs, k) == records[numFv..]
        invariant off == RecordOffset(records, numFv)
        invariant Stored(buffer[..], records, numFv)
        invariant |spi.mem| == |before| && Untouched(before, spi.mem, pl, hobs, k)
        invariant spi.FaultFree() ==> HealthySoFar(before, spi.mem, pl, hobs, k)
        decreases |hobs| - k
      {
        NextAccepted(before, pl, hobs, k, records, numFv);
        match pl.space(hobs[k].base) {
          case Missing => break;
          case OtherSpace =>
            if spi.FaultFree() {
              SkipStep(before, spi.mem, pl, hobs, k);
            }
            LaterUntouched(before, spi.mem, pl, hobs, k, k + 1);
          case MemoryMappedIo =>
            var header := Restore(spi, pl, hobs, k, before);
            if header.Some? {
              off := AppendRecord(off, Record(hobs[k].base, header.value), stray(numFv));
            }
        }
        k := k + 1;
      }
      NoneLeft(before, pl, hobs);
      LaterUntouched(before, spi.mem, pl, hobs, k, |hobs|);
    }
  }
}
