/** From initialisation to service: the instance record of an accepted volume is an instance the
    driver can serve. */
module FvbBoot {
  import opened Bytes
  import opened Nor
  import opened BlockMap
  import opened FvbHeader
  import opened FvbInit
  import opened FvbVolume
  import FvbAttributes
  import FvbDriver

  const ATTRIBUTES_AT: nat := 44

  /** A four-byte attribute word. */
  function AttributesOf(bytes: seq<byte>): bv32
    requires |bytes| == 4
  {
    FromLeBound(bytes);
    Limits();
    ToWord(FromLe(bytes))
  }

  function ToWord(n: nat): bv32
    requires n < U32
  {
    n as bv32
  }

  /** The instance that the driver reads out of a record. */
  function InstanceOf(r: Record): FvbDriver.Instance
    requires Usable(r.header)
  {
    FvbDriver.Instance(r.base, Count(MapOf(r.header)),
                       AttributesOf(r.header[ATTRIBUTES_AT..ATTRIBUTES_AT + 4]), MapOf(r.header))
  }

  /** The header describes a volume of aligned blocks that lies at `base` in the flash. */
  ghost predicate Describes(h: seq<byte>, base: nat, deviceBase: nat, flashSize: nat) {
    var bs := Blocks(MapOf(h));
    && FvbDriver.SectorsAligned(bs)
    && TotalBytes(bs) < U32
    && 0 < base
    && deviceBase <= base
    && (base - deviceBase) % SECTOR == 0
    && base - deviceBase + TotalBytes(bs) <= flashSize
  }

  /** Given a header that describes its volume, the driver can serve the instance; its stored count is
      the number of blocks that the address walk finds exactly when no map entry in front of the zero
      count has length zero. */
  lemma InstanceWellFormed(r: Record, deviceBase: nat, flashSize: nat)
    requires Usable(r.header) && Describes(r.header, r.base, deviceBase, flashSize)
    ensures var v := InstanceOf(r);
            && FvbDriver.WellFormed(v, deviceBase, flashSize)
            && (v.numOfBlocks == |v.Shape()| <==> NoEmptyBlocks(MapOf(r.header)))
  {
    hide Count, NoEmptyBlocks, Blocks, OffsetOf, MapOf, FromLe;
    var m := MapOf(r.header);
    CountMatchesWalk(m);
    MapBound(r.header);
    var i :| 0 <= i < |m| && m[i].numBlocks == 0;
    assert Ends(m[i]);
  }

  /** Every block of the map is a whole number of sectors. */
  predicate AllWhole(bs: seq<Block>) {
    forall k :: 0 <= k < |bs| ==> bs[k].length % SECTOR == 0
  }

  /** For requests in which no start plus count wraps, an erase that is refused as invalid has changed
      nothing exactly when the header has no empty entry in front of the zero count and only blocks of
      whole sectors, or when there is nothing left to erase. With requests that wrap, only the latter. */
  lemma ErasePromiseExactly(r: Record, deviceBase: nat, mem: seq<byte>)
    requires Usable(r.header) && Describes(r.header, r.base, deviceBase, |mem|)
    requires FvbAttributes.Writable(InstanceOf(r).attributes)
    ensures var (v, m) := (FvbDriver.VolumeOf(mem, deviceBase, InstanceOf(r)), MapOf(r.header));
            && Shaped(v)
            && (ValidatesUnwrapped(v) <==> (NoEmptyBlocks(m) && AllWhole(Blocks(m))) || NothingToErase(v))
            && (ValidatesFirst(v) <==> NothingToErase(v))
  {
    hide Count, NoEmptyBlocks, Blocks, OffsetOf, MapOf, FromLe, Shaped, ValidatesFirst, ValidatesUnwrapped,
         NothingToErase;
    InstanceWellFormed(r, deviceBase, |mem|);
    var v := FvbDriver.VolumeOf(mem, deviceBase, InstanceOf(r));
    BlocksHaveBytes(MapOf(r.header));
    ErasableExactly(v, MapOf(r.header));
    ValidatesExactly(v);
    WrappedNeverValidates(v);
  }

  lemma ErasableExactly(v: Volume, m: seq<Entry>)
    requires v.shape == Blocks(m) && |v.shape| <= v.count && (v.count == |v.shape| <==> NoEmptyBlocks(m))
    ensures AllErasable(v) <==> NoEmptyBlocks(m) && AllWhole(Blocks(m))
  {
    hide Blocks, NoEmptyBlocks;
    if v.count > |v.shape| {
      assert !Erasable(v.shape, |v.shape|);
    }
    if AllErasable(v) {
      forall k | 0 <= k < |v.shape| ensures v.shape[k].length % SECTOR == 0 {
        assert Erasable(v.shape, k);
      }
    }
  }

  /** No block of a map is empty, so there are no more blocks than bytes. */
  lemma BlocksHaveBytes(m: seq<Entry>)
    ensures |Blocks(m)| <= TotalBytes(Blocks(m))
  {
    NoneEmpty(m, 0);
    BytesOf(Blocks(m), |Blocks(m)|);
  }

  lemma {:induction false} NoneEmpty(m: seq<Entry>, entry: nat)
    ensures forall k :: 0 <= k < |Blocks(m, entry)| ==> Blocks(m, entry)[k].length > 0
  {
    if m == [] || Ends(m[0]) {
    } else {
      NoneEmpty(m[1..], entry + 1);
    }
  }

  lemma {:induction false} BytesOf(bs: seq<Block>, k: nat)
    requires k <= |bs| && forall j :: 0 <= j < |bs| ==> bs[j].length > 0
    ensures k <= OffsetOf(bs, k)
  {
    if k == 0 {
    } else {
      BytesOf(bs, k - 1);
    }
  }

  /** A map with an empty entry in front of a real one: the count stored at initialisation includes
      blocks that the address walk refuses. */
  lemma EmptyEntryMiscounts()
    ensures var m := [Entry(1, 0), Entry(2, 0x1000), Entry(0, 0)];
            Count(m) == 3 && |Blocks(m)| == 0 && Locate(m, 0).None?
  {
  }

  /** A map with an empty entry between real ones, on which an erase of all three counted blocks passes
      the validation, blanks the only block that is found and then fails as invalid. */
  lemma EmptyEntryBreaksErase(contents: seq<byte>)
    requires |contents| == 0x1000
    ensures var m := [Entry(1, 0x1000), Entry(1, 0), Entry(1, 0x1000), Entry(0, 0)];
            var v := Volume(Blocks(m), Count(m), [contents], FvbAttributes.WRITE_STATUS);
            && Count(m) == 3 && |Blocks(m)| == 1 && Shaped(v)
            && ValidRanges([(0, 3)], v.count)
            && EraseStep(v, [(0, 3)]) == (v.(blocks := [Ones(0x1000)]), Reply(InvalidParameter, 0, []))
  {
    var m := [Entry(1, 0x1000), Entry(1, 0), Entry(1, 0x1000), Entry(0, 0)];
    OneBlockFound(m);
    var v := Volume(Blocks(m), Count(m), [contents], FvbAttributes.WRITE_STATUS);
    assert ErasableFrom(v.shape, 1, 2) == 0;
    assert Clipped((0, 3), v.shape) == (0, 1);
    assert FirstBad([(0, 3)], v.shape, 0) == 0 && Reached([(0, 3)], v.shape) == [(0, 1)];
    assert InRange([(0, 1)][0], 0);
    assert Blanked([contents], [(0, 1)]) == [Ones(0x1000)];
  }

  lemma OneBlockFound(m: seq<Entry>)
    requires m == [Entry(1, 0x1000), Entry(1, 0), Entry(1, 0x1000), Entry(0, 0)]
    ensures Blocks(m) == [Block(0x1000, 0)] && Count(m) == 3
  {
    assert Blocks(m[1..], 1) == [];
    var run := seq(1, _ => Block(0x1000, 0));
    assert run == [Block(0x1000, 0)] && run + [] == run;
    assert m[1..][1..] == m[2..] && m[2..][1..] == m[3..];
    assert Count(m[3..]) == 0;
    assert Count(m[2..]) == 1;
    assert Count(m[1..]) == 2;
  }

  /** The record of a repaired NV-storage volume is well-formed, and its stored count is exact: its
      blocks tile the part of the NV region that is a whole number of blocks. */
  lemma TemplateInstance(p: Pcds, deviceBase: nat, flashSize: nat)
    requires p.Sane() && deviceBase <= p.nvBase && (p.nvBase - deviceBase) % SECTOR == 0
    requires p.nvBase - deviceBase + p.Total() <= flashSize
    ensures Usable(Template(p))
    ensures var v := InstanceOf(Record(p.nvBase, Template(p)));
            && FvbDriver.WellFormed(v, deviceBase, flashSize) && v.numOfBlocks == |v.Shape()|
            && v.fvBase == p.nvBase && v.attributes == 0x0836
  {
    hide Blocks, OffsetOf, NoEmptyBlocks, FvbDriver.WellFormed, Template, InstanceOf, MapOf, FieldsOk, FromLe;
    TemplateOk(p);
    TemplateMap(p);
    var m := MapOf(Template(p));
    assert m[1].numBlocks == 0;
    assert Usable(Template(p));
    TemplateRecord(p);
    var bs := Blocks(m);
    OneRun(p.BlockCount(), p.blockSize);
    FvbDriver.WholeIsAligned(bs);
    Quotient(p);
    InstanceWellFormed(Record(p.nvBase, Template(p)), deviceBase, flashSize);
  }

  lemma TemplateRecord(p: Pcds)
    requires p.Sane() && Usable(Template(p))
    ensures var v := InstanceOf(Record(p.nvBase, Template(p))); v.fvBase == p.nvBase && v.attributes == 0x0836
  {
    hide Template, Le, AttributesOf, MapOf, Usable, Count;
    TemplateFields(p);
    TemplateWord();
  }

  lemma TemplateWord()
    ensures AttributesOf(Le(TEMPLATE_ATTRIBUTES, 4)) == 0x0836
  {
    hide Le, FromLe, ToWord;
    Limits();
    LeRoundTrip(TEMPLATE_ATTRIBUTES, 4);
    TemplateBits();
  }

  lemma TemplateBits()
    ensures ToWord(TEMPLATE_ATTRIBUTES) == 0x0836
  {
    assert (0x0836 as bv32) == 0x0836;
  }

  lemma OneRun(n: nat, len: nat)
    requires len > 0
    ensures var m := [Entry(n, len), Entry(0, 0)];
            && NoEmptyBlocks(m)
            && TotalBytes(Blocks(m)) == n * len
            && forall k :: 0 <= k < |Blocks(m)| ==> Blocks(m)[k].length == len
  {
    var m := [Entry(n, len), Entry(0, 0)];
    var run := seq(n, _ => Block(len, 0));
    assert m[1..] == [Entry(0, 0)];
    assert NoEmptyBlocks(m[1..]) && Blocks(m[1..], 1) == [];
    if n > 0 {
      assert Blocks(m) == run + [];
      assert run + [] == run;
      OffsetUniform(run, n, len);
    }
  }

  lemma Quotient(p: Pcds)
    requires p.Sane()
    ensures p.BlockCount() * p.blockSize <= p.Total()
  {
  }

  // The whole driver.

  /** `vs` are the instances that the driver reads out of the records, in their order. */
  ghost predicate ReadFrom(vs: seq<FvbDriver.Instance>, rs: seq<Record>) {
    && |vs| == |rs|
    && forall i {:trigger vs[i]} :: 0 <= i < |vs| ==> Usable(rs[i].header) && vs[i] == InstanceOf(rs[i])
  }

  lemma SameCount(vs: seq<FvbDriver.Instance>, rs: seq<Record>)
    requires ReadFrom(vs, rs)
    ensures |vs| == |rs|
  {
  }

  lemma ReadOne(vs: seq<FvbDriver.Instance>, rs: seq<Record>, n: nat)
    requires ReadFrom(vs, rs) && n < |rs|
    ensures |vs| == |rs| && Usable(rs[n].header) && vs[n] == InstanceOf(rs[n])
  {
    hide Usable;
    var v := vs[n];
  }

  /** Every accepted header describes a volume that fits the space which its hand-off block announces. */
  ghost predicate Serviceable(mem: seq<byte>, pl: Platform, hobs: seq<Hob>) {
    forall j :: 0 <= j < |hobs| && IsFlash(pl, hobs[j]) ==> FitsHob(mem, pl, hobs[j])
  }

  ghost predicate FitsHob(mem: seq<byte>, pl: Platform, hob: Hob) {
    match Source(mem, pl, hob)
    case None => true
    case Some(h) =>
      && Usable(h) && Describes(h, hob.base, pl.deviceBase, |mem|)
      && TotalBytes(Blocks(MapOf(h))) <= hob.length
  }

  /** The hand-off block that record `n` comes from. */
  lemma {:induction false} HobOf(mem: seq<byte>, pl: Platform, hobs: seq<Hob>, k: nat, n: nat) returns (j: nat)
    requires HobsOk(mem, pl, hobs) && k <= |hobs| && n < |Accepted(mem, pl, hobs, k)|
    ensures k <= j < |hobs| && IsFlash(pl, hobs[j])
    ensures var r := Accepted(mem, pl, hobs, k)[n];
            r.base == hobs[j].base && Source(mem, pl, hobs[j]) == Some(r.header)
    decreases |hobs| - k
  {
    hide Source;
    if IsFlash(pl, hobs[k]) && Source(mem, pl, hobs[k]).Some? {
      if n == 0 {
        j := k;
      } else {
        j := HobOf(mem, pl, hobs, k + 1, n - 1);
      }
    } else {
      j := HobOf(mem, pl, hobs, k + 1, n);
    }
  }

  /** Different records come from different blocks, in order. */
  lemma {:induction false} TwoHobs(mem: seq<byte>, pl: Platform, hobs: seq<Hob>, k: nat, m: nat, n: nat)
    returns (i: nat, j: nat)
    requires HobsOk(mem, pl, hobs) && k <= |hobs| && m < n < |Accepted(mem, pl, hobs, k)|
    ensures k <= i < j < |hobs| && IsFlash(pl, hobs[i]) && IsFlash(pl, hobs[j])
    ensures var rs := Accepted(mem, pl, hobs, k);
            && rs[m].base == hobs[i].base && Source(mem, pl, hobs[i]) == Some(rs[m].header)
            && rs[n].base == hobs[j].base && Source(mem, pl, hobs[j]) == Some(rs[n].header)
    decreases |hobs| - k
  {
    hide Source;
    if IsFlash(pl, hobs[k]) && Source(mem, pl, hobs[k]).Some? {
      if m == 0 {
        i := k;
        j := HobOf(mem, pl, hobs, k + 1, n - 1);
      } else {
        i, j := TwoHobs(mem, pl, hobs, k + 1, m - 1, n - 1);
      }
    } else {
      i, j := TwoHobs(mem, pl, hobs, k + 1, m, n);
    }
  }

  /** One record, in terms of its hand-off block. */
  lemma RecordIsServed(mem: seq<byte>, pl: Platform, hob: Hob, r: Record)
    requires Usable(r.header) && r.base == hob.base && Source(mem, pl, hob) == Some(r.header)
    requires FitsHob(mem, pl, hob)
    ensures var v := InstanceOf(r);
            FvbDriver.WellFormed(v, pl.deviceBase, |mem|) && v.fvBase == hob.base && v.Size() <= hob.length
  {
    hide Source, Usable, FvbDriver.WellFormed, OffsetOf, Blocks, MapOf, Count;
    InstanceWellFormed(r, pl.deviceBase, |mem|);
  }

  /** The records that initialisation lays down are instances that the driver can be set up with: each
      well-formed, pairwise disjoint. */
  lemma RecordsAreServed(mem: seq<byte>, pl: Platform, hobs: seq<Hob>, vs: seq<FvbDriver.Instance>)
    requires HobsOk(mem, pl, hobs) && HobsApart(pl, hobs) && Serviceable(mem, pl, hobs)
    requires ReadFrom(vs, Accepted(mem, pl, hobs))
    ensures FvbDriver.AllWellFormed(vs, pl.deviceBase, |mem|)
  {
    hide HobOk, Source, FitsHob, FvbDriver.WellFormed, OffsetOf, Blocks, ReadFrom, Usable, InstanceOf, Accepted;
    var rs := Accepted(mem, pl, hobs);
    SameCount(vs, rs);
    forall n | 0 <= n < |vs| ensures FvbDriver.WellFormed(vs[n], pl.deviceBase, |mem|) {
      ReadOne(vs, rs, n);
      var j := HobOf(mem, pl, hobs, 0, n);
      RecordIsServed(mem, pl, hobs[j], rs[n]);
    }
    forall m, n | 0 <= m < n < |vs| ensures FvbDriver.Apart(vs[m], vs[n]) {
      ReadOne(vs, rs, m);
      ReadOne(vs, rs, n);
      var i, j := TwoHobs(mem, pl, hobs, 0, m, n);
      RecordIsServed(mem, pl, hobs[i], rs[m]);
      RecordIsServed(mem, pl, hobs[j], rs[n]);
    }
  }

  lemma ServiceableUsable(mem: seq<byte>, pl: Platform, hobs: seq<Hob>)
    requires HobsOk(mem, pl, hobs) && Serviceable(mem, pl, hobs)
    ensures forall r :: r in Accepted(mem, pl, hobs) ==> Usable(r.header)
  {
    hide HobOk, Source, Describes, Usable, Accepted;
    var rs := Accepted(mem, pl, hobs);
    forall r | r in rs ensures Usable(r.header) {
      var n :| 0 <= n < |rs| && rs[n] == r;
      var j := HobOf(mem, pl, hobs, 0, n);
      assert FitsHob(mem, pl, hobs[j]);
    }
  }

  /** mPlatformFvbMediaInfo: one entry, for the NV-storage volume. */
  predicate PlatformTable(pl: Platform) {
    pl.pcds.Sane() && pl.media == [Media(pl.pcds.nvBase, Template(pl.pcds))]
  }

  /** The table that the package builds meets what initialisation needs of it. */
  lemma PlatformTableOk(pl: Platform)
    requires PlatformTable(pl)
    ensures MediaOk(pl)
  {
    hide Template, MapOf;
    var h := Template(pl.pcds);
    TemplateOk(pl.pcds);
    TemplateMap(pl.pcds);
    assert MapOf(h)[1].numBlocks == 0;
  }

  /** The instance stored at `off`, as the driver's accesses through the record decode it. */
  function InstanceAt(buf: seq<byte>, off: nat): FvbDriver.Instance
    requires off + OVERHEAD + HEADER_SIZE <= |buf|
    requires var n := FromLe(buf[off + OVERHEAD + LENGTH_AT..off + OVERHEAD + CHECKSUM_AT]);
             MAP_AT <= n && off + OVERHEAD + n <= |buf|
  {
    var at := off + OVERHEAD;
    var n := FromLe(buf[at + LENGTH_AT..at + CHECKSUM_AT]);
    FvbDriver.Instance(FromLe(buf[off + BASE_AT..off + BASE_AT + 8]), FromLe(buf[off + COUNT_AT..at]),
                       AttributesOf(buf[at + ATTRIBUTES_AT..at + ATTRIBUTES_AT + 4]), MapOf(buf[at..at + n]))
  }

  lemma InstanceRead(buf: seq<byte>, off: nat, r: Record)
    requires HoldsRecord(buf, off, r) && Usable(r.header)
    ensures off + OVERHEAD + HEADER_SIZE <= |buf|
    ensures var n := FromLe(buf[off + OVERHEAD + LENGTH_AT..off + OVERHEAD + CHECKSUM_AT]);
            && MAP_AT <= n && off + OVERHEAD + n <= |buf|
            && InstanceAt(buf, off) == InstanceOf(r)
  {
    hide FromLe, MapOf, Count, AttributesOf;
    RecordLength(buf, off, r);
    SliceOfSlice(buf, off + OVERHEAD, |r.header|, ATTRIBUTES_AT, 4);
  }

  /** The instances that the driver reads out of the buffer are those of the records. */
  method ReadInstances(global: FvbGlobal) returns (vs: seq<FvbDriver.Instance>)
    requires global.Valid() && forall r :: r in global.records ==> Usable(r.header)
    ensures ReadFrom(vs, global.records)
  {
    hide HoldsRecord, Usable, InstanceOf, InstanceAt, RecordOffset, Stored;
    vs := [];
    while |vs| < global.numFv
      invariant |vs| <= global.numFv
      invariant forall i {:trigger vs[i]} :: 0 <= i < |vs| ==>
                  Usable(global.records[i].header) && vs[i] == InstanceOf(global.records[i])
    {
      var status, off := global.GetFvbInstance(|vs|);
      InstanceRead(global.buffer[..], off, global.records[|vs|]);
      vs := vs + [InstanceAt(global.buffer[..], off)];
    }
  }

  /** From the flash and the hand-off blocks to a driver in service: with the package's own table, the
      records laid down by initialisation, read back out of their buffer, are instances that the driver
      accepts. */
  method Boot(global: FvbGlobal, spi: SpiProtocol, pl: Platform, hobs: seq<Hob>, stray: nat -> nat)
    returns (driver: FvbDriver.FvbDriver)
    requires spi.Whole() && PlatformTable(pl) && HobsOk(spi.mem, pl, hobs) && HobsApart(pl, hobs)
    requires Serviceable(spi.mem, pl, hobs)
    modifies global, spi
    ensures fresh(driver) && driver.Valid() && driver.spi == spi && driver.deviceBase == pl.deviceBase
    ensures global.Valid() && global.records == Accepted(old(spi.mem), pl, hobs)
    ensures ReadFrom(driver.instances, global.records)
    ensures Untouched(old(spi.mem), spi.mem, pl, hobs, |hobs|)
  {
    hide HobOk, Source, HobsApart, MediaOk, Serviceable, PlatformTable, ReadFrom, Accepted, FvbDriver.AllWellFormed,
         Healthy, SameVolume, HealthySoFar, Stored;
    PlatformTableOk(pl);
    global.Initialize(spi, pl, hobs, stray);
    ServiceableUsable(old(spi.mem), pl, hobs);
    var vs := ReadInstances(global);
    RecordsAreServed(old(spi.mem), pl, hobs, vs);
    driver := new FvbDriver.FvbDriver(spi, pl.deviceBase, vs);
  }
}
