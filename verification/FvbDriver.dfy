/** The firmware volume block driver: address translation, clipped reads and writes, block erase
    and the two-pass multi-range erase, over one NOR part shared by all volumes. */
module FvbDriver {
  import opened Bytes
  import opened Nor
  import opened SpiAccess
  import opened BlockMap
  import opened FvbVolume
  import FvbAttributes

  /** What the driver keeps of one volume. */
  datatype Instance = Instance(fvBase: nat, numOfBlocks: nat, attributes: bv32, blockMap: seq<Entry>)
  {
    function Shape(): seq<Block> {
      Blocks(blockMap)
    }

    function Size(): nat {
      TotalBytes(Shape())
    }
  }

  /** Blocks that are a whole number of sectors start at a sector boundary. */
  ghost predicate SectorsAligned(bs: seq<Block>) {
    forall k {:trigger bs[k]} :: 0 <= k < |bs| && bs[k].length % SECTOR == 0 ==> OffsetOf(bs, k) % SECTOR == 0
  }

  /** A usable volume: a terminated block map of aligned blocks whose size does not wrap in 32 bits, a
      stored block count that covers the map, and a sector-aligned place inside the BIOS region. */
  ghost predicate WellFormed(v: Instance, deviceBase: nat, flashSize: nat) {
    && Terminated(v.blockMap)
    && SectorsAligned(v.Shape())
    && |v.Shape()| <= v.numOfBlocks < U64
    && v.Size() < U32
    && 0 < v.fvBase
    && deviceBase <= v.fvBase
    && (v.fvBase - deviceBase) % SECTOR == 0
    && v.fvBase - deviceBase + v.Size() <= flashSize
  }

  ghost predicate Apart(v: Instance, w: Instance) {
    v.fvBase + v.Size() <= w.fvBase || w.fvBase + w.Size() <= v.fvBase
  }

  /** The contents of the blocks of a volume that starts at flash offset `at`. */
  function BlocksOf(mem: seq<byte>, at: nat, bs: seq<Block>): (r: seq<seq<byte>>)
    requires at + TotalBytes(bs) <= |mem|
    ensures |r| == |bs| && forall k {:trigger r[k]} :: 0 <= k < |bs| ==> r[k] == BlockOf(mem, at, bs, k)
  {
    FirstBlocks(mem, at, bs, |bs|)
  }

  function FirstBlocks(mem: seq<byte>, at: nat, bs: seq<Block>, n: nat): (r: seq<seq<byte>>)
    requires at + TotalBytes(bs) <= |mem| && n <= |bs|
    ensures |r| == n && forall k {:trigger r[k]} :: 0 <= k < n ==> r[k] == BlockOf(mem, at, bs, k)
  {
    if n == 0 then [] else FirstBlocks(mem, at, bs, n - 1) + [BlockOf(mem, at, bs, n - 1)]
  }

  function BlockOf(mem: seq<byte>, at: nat, bs: seq<Block>, k: nat): (r: seq<byte>)
    requires k < |bs| && at + TotalBytes(bs) <= |mem|
    ensures |r| == bs[k].length
  {
    BlockInside(bs, k);
    mem[at + OffsetOf(bs, k)..at + OffsetOf(bs, k) + bs[k].length]
  }

  lemma BlockInside(bs: seq<Block>, k: nat)
    requires k < |bs|
    ensures OffsetOf(bs, k) + bs[k].length <= TotalBytes(bs)
  {
    OffsetMonotone(bs, k, |bs|);
  }

  lemma SpliceSameBlock(mem: seq<byte>, at: nat, bs: seq<Block>, k: nat, offset: nat, patch: seq<byte>)
    requires k < |bs| && at + TotalBytes(bs) <= |mem| && offset + |patch| <= bs[k].length
    ensures at + OffsetOf(bs, k) + offset + |patch| <= |mem|
    ensures BlockOf(Splice(mem, at + OffsetOf(bs, k) + offset, patch), at, bs, k)
         == Splice(BlockOf(mem, at, bs, k), offset, patch)
  {
    hide OffsetOf;
    BlockInside(bs, k);
  }

  lemma SpliceOtherBlock(mem: seq<byte>, at: nat, bs: seq<Block>, k: nat, offset: nat, patch: seq<byte>,
                         j: nat)
    requires k < |bs| && at + TotalBytes(bs) <= |mem| && offset + |patch| <= bs[k].length
    requires j < |bs| && j != k
    ensures at + OffsetOf(bs, k) + offset + |patch| <= |mem|
    ensures BlockOf(Splice(mem, at + OffsetOf(bs, k) + offset, patch), at, bs, j) == BlockOf(mem, at, bs, j)
  {
    hide OffsetOf;
    BlockInside(bs, k);
    BlockInside(bs, j);
    if j < k {
      OffsetMonotone(bs, j, k);
    } else {
      OffsetMonotone(bs, k, j);
    }
  }

  /** Replacing bytes inside one block changes that block and no other. */
  lemma SpliceBlock(mem: seq<byte>, at: nat, bs: seq<Block>, k: nat, offset: nat, patch: seq<byte>)
    requires k < |bs| && at + TotalBytes(bs) <= |mem| && offset + |patch| <= bs[k].length
    ensures at + OffsetOf(bs, k) + offset + |patch| <= |mem|
    ensures BlocksOf(Splice(mem, at + OffsetOf(bs, k) + offset, patch), at, bs)
         == BlocksOf(mem, at, bs)[k := Splice(BlockOf(mem, at, bs, k), offset, patch)]
  {
    hide OffsetOf;
    SpliceSameBlock(mem, at, bs, k, offset, patch);
    forall j | 0 <= j < |bs| && j != k
      ensures BlocksOf(Splice(mem, at + OffsetOf(bs, k) + offset, patch), at, bs)[j]
           == BlocksOf(mem, at, bs)[j]
    {
      SpliceOtherBlock(mem, at, bs, k, offset, patch, j);
    }
  }

  lemma ProgrammedBlock(mem: seq<byte>, at: nat, bs: seq<Block>, k: nat, offset: nat, data: seq<byte>)
    requires k < |bs| && at + TotalBytes(bs) <= |mem| && offset + |data| <= bs[k].length
    ensures at + OffsetOf(bs, k) + offset + |data| <= |mem|
    ensures BlocksOf(Programmed(mem, at + OffsetOf(bs, k) + offset, data), at, bs)
         == BlocksOf(mem, at, bs)[k := Programmed(BlockOf(mem, at, bs, k), offset, data)]
  {
    hide OffsetOf;
    BlockInside(bs, k);
    var from := at + OffsetOf(bs, k);
    SliceOfSlice(mem, from, bs[k].length, offset, |data|);
    SpliceBlock(mem, at, bs, k, offset, AndBytes(mem[from + offset..from + offset + |data|], data));
  }

  lemma ErasedBlock(mem: seq<byte>, at: nat, bs: seq<Block>, k: nat)
    requires k < |bs| && at + TotalBytes(bs) <= |mem|
    ensures at + OffsetOf(bs, k) + bs[k].length <= |mem|
    ensures BlockOf(Erased(mem, at + OffsetOf(bs, k), bs[k].length), at, bs, k) == Ones(bs[k].length)
  {
    hide OffsetOf;
    BlockInside(bs, k);
  }

  ghost predicate SameExcept(a: seq<seq<byte>>, b: seq<seq<byte>>, k: nat) {
    |a| == |b| && forall j :: 0 <= j < |a| && j != k ==> a[j] == b[j]
  }

  /** A change inside one block is invisible in the others. */
  lemma OneBlockChanged(a: seq<byte>, b: seq<byte>, at: nat, bs: seq<Block>, k: nat)
    requires k < |bs| && at + TotalBytes(bs) <= |a|
    requires SameOutside(a, b, at + OffsetOf(bs, k), bs[k].length)
    ensures SameOutside(a, b, at, TotalBytes(bs))
    ensures SameExcept(BlocksOf(a, at, bs), BlocksOf(b, at, bs), k)
  {
    hide OffsetOf;
    BlockInside(bs, k);
    forall j | 0 <= j < |bs| && j != k ensures BlockOf(a, at, bs, j) == BlockOf(b, at, bs, j) {
      BlockInside(bs, j);
      if j < k {
        OffsetMonotone(bs, j, k);
      } else {
        OffsetMonotone(bs, k, j);
      }
    }
  }

  ghost predicate SameOutsideRange(a: seq<seq<byte>>, b: seq<seq<byte>>, range: (nat, nat)) {
    |a| == |b| && forall k {:trigger b[k]} :: 0 <= k < |a| && !InRange(range, k) ==> a[k] == b[k]
  }

  ghost predicate SameOutsideRanges(a: seq<seq<byte>>, b: seq<seq<byte>>, ranges: seq<(nat, nat)>) {
    |a| == |b| && forall k {:trigger b[k]} :: 0 <= k < |a| && !InRanges(ranges, k) ==> a[k] == b[k]
  }

  lemma InOneRange(range: (nat, nat), k: nat)
    ensures InRanges([range], k) <==> InRange(range, k)
  {
    assert InRange([range][0], k) == InRange(range, k);
  }

  lemma InMoreRanges(ranges: seq<(nat, nat)>, range: (nat, nat), k: nat)
    ensures InRanges(ranges + [range], k) <==> InRanges(ranges, k) || InRange(range, k)
  {
    var more := ranges + [range];
    if InRanges(ranges, k) {
      var i :| 0 <= i < |ranges| && InRange(ranges[i], k);
      assert InRange(more[i], k);
    }
    if InRange(range, k) {
      assert InRange(more[|ranges|], k);
    }
  }

  lemma BlankMore(before: seq<seq<byte>>, ranges: seq<(nat, nat)>, range: (nat, nat))
    ensures Blanked(Blanked(before, ranges), [range]) == Blanked(before, ranges + [range])
  {
    forall k | 0 <= k < |before|
      ensures Blanked(Blanked(before, ranges), [range])[k] == Blanked(before, ranges + [range])[k]
    {
      InOneRange(range, k);
      InMoreRanges(ranges, range, k);
    }
  }

  /** The blocks after one more range of a list was erased, in whole or in part. */
  lemma BlankOneMore(before: seq<seq<byte>>, after: seq<seq<byte>>, ranges: seq<(nat, nat)>, n: nat,
                     shape: seq<Block>)
    requires n < |ranges|
    requires SameOutsideRange(Blanked(before, ranges[..n]), after, ranges[n])
    ensures SameOutsideRanges(before, after, ranges)
    ensures Blanked(Blanked(before, ranges[..n]), [ranges[n]]) == Blanked(before, ranges[..n + 1])
    ensures Blanked(Blanked(before, ranges[..n]), [Clipped(ranges[n], shape)])
         == Blanked(before, ranges[..n] + [Clipped(ranges[n], shape)])
  {
    hide OffsetOf, Clipped;
    forall k | 0 <= k < |after| && !InRanges(ranges, k) ensures after[k] == before[k] {
      assert !InRange(ranges[n], k);
    }
    assert ranges[..n] + [ranges[n]] == ranges[..n + 1];
    BlankMore(before, ranges[..n], ranges[n]);
    BlankMore(before, ranges[..n], Clipped(ranges[n], shape));
  }

  lemma BlankNothing(before: seq<seq<byte>>, ranges: seq<(nat, nat)>)
    ensures Blanked(before, ranges[..0]) == before && SameOutsideRanges(before, before, ranges)
  {
  }

  lemma BlankNone(before: seq<seq<byte>>, start: nat, count: nat)
    ensures Blanked(before, [(start, 0)]) == before && SameOutsideRange(before, before, (start, count))
  {
  }

  lemma NextBad(ranges: seq<(nat, nat)>, shape: seq<Block>, i: nat)
    requires i < |ranges|
    ensures FirstBad(ranges, shape, i)
         == if Clipped(ranges[i], shape) != ranges[i] then i else FirstBad(ranges, shape, i + 1)
  {
  }

  lemma NoneBad(ranges: seq<(nat, nat)>, shape: seq<Block>)
    ensures FirstBad(ranges, shape, |ranges|) == |ranges|
  {
  }

  lemma NextErasable(shape: seq<Block>, lba: nat, count: nat)
    ensures ErasableFrom(shape, lba, 0) == 0 && (Erasable(shape, lba) ==> lba < |shape|)
    ensures count > 0 ==>
              ErasableFrom(shape, lba, count)
              == if Erasable(shape, lba) then 1 + ErasableFrom(shape, lba + 1, count - 1) else 0
  {
  }

  /** The blocks after one more block of a range was erased, or its erase failed. */
  lemma BlankNext(before: seq<seq<byte>>, was: seq<seq<byte>>, after: seq<seq<byte>>,
                  start: nat, done: nat, count: nat, lba: nat)
    requires done < count && lba == start + done < |before|
    requires was == Blanked(before, [(start, done)]) && SameExcept(was, after, lba)
    ensures SameOutsideRange(before, after, (start, count))
    ensures after[lba] == Ones(|was[lba]|) ==> after == Blanked(before, [(start, done + 1)])
  {
    hide OffsetOf;
    forall k | 0 <= k < |before|
      ensures InRanges([(start, done)], k) <==> InRange((start, done), k)
      ensures InRanges([(start, done + 1)], k) <==> InRange((start, done + 1), k)
    {
      InOneRange((start, done), k);
      InOneRange((start, done + 1), k);
    }
  }

  lemma {:induction false} OffsetAligned(bs: seq<Block>, k: nat)
    requires k <= |bs|
    requires forall j :: 0 <= j < |bs| ==> bs[j].length % SECTOR == 0
    ensures OffsetOf(bs, k) % SECTOR == 0
  {
    if k == 0 {
    } else {
      OffsetAligned(bs, k - 1);
    }
  }

  /** Blocks of whole sectors only are aligned. */
  lemma WholeIsAligned(bs: seq<Block>)
    requires forall j :: 0 <= j < |bs| ==> bs[j].length % SECTOR == 0
    ensures SectorsAligned(bs)
  {
    hide OffsetOf;
    forall k | 0 <= k < |bs| ensures OffsetOf(bs, k) % SECTOR == 0 {
      OffsetAligned(bs, k);
    }
  }

  /** A change outside the volume is invisible in it. */
  lemma BlocksFrame(a: seq<byte>, b: seq<byte>, at: nat, bs: seq<Block>, from: int, len: int)
    requires SameOutside(a, b, from, len)
    requires at + TotalBytes(bs) <= |a|
    requires from + len <= at || at + TotalBytes(bs) <= from
    ensures BlocksOf(a, at, bs) == BlocksOf(b, at, bs)
  {
    hide OffsetOf;
    forall k | 0 <= k < |bs| ensures BlockOf(a, at, bs, k) == BlockOf(b, at, bs, k) {
      BlockInside(bs, k);
    }
  }

  lemma NextOffset(bs: seq<Block>, k: nat)
    requires k < |bs|
    ensures OffsetOf(bs, k + 1) == OffsetOf(bs, k) + bs[k].length
  {
  }

  /** Consecutive blocks are consecutive bytes. */
  lemma {:induction false} FlattenBlocks(mem: seq<byte>, at: nat, bs: seq<Block>, i: nat, j: nat)
    requires i <= j <= |bs| && at + TotalBytes(bs) <= |mem|
    ensures OffsetOf(bs, i) <= OffsetOf(bs, j) <= TotalBytes(bs)
    ensures Flatten(BlocksOf(mem, at, bs), i, j) == mem[at + OffsetOf(bs, i)..at + OffsetOf(bs, j)]
    decreases j - i
  {
    hide OffsetOf;
    OffsetMonotone(bs, j, |bs|);
    if i == j {
    } else {
      NextOffset(bs, j - 1);
      FlattenBlocks(mem, at, bs, i, j - 1);
      var last := BlocksOf(mem, at, bs)[j - 1];
      assert last == mem[at + OffsetOf(bs, j - 1)..at + OffsetOf(bs, j)];
      SliceJoin(mem, at + OffsetOf(bs, i), at + OffsetOf(bs, j - 1), at + OffsetOf(bs, j));
    }
  }

  lemma {:induction false} RestOfEntryEnds(bs: seq<Block>, k: nat, remaining: nat)
    requires RestOfEntry(bs, k, remaining)
    ensures EntryEnd(bs, k) == k + remaining
    ensures OffsetOf(bs, k + remaining) == OffsetOf(bs, k) + Times(bs[k].length, remaining)
    decreases remaining
  {
    if remaining == 1 {
    } else {
      assert bs[k + 1] == bs[k];
      RestOfEntryEnds(bs, k + 1, remaining - 1);
      assert bs[k].length * remaining == bs[k].length + bs[k].length * (remaining - 1);
    }
  }

  function Times(a: nat, b: nat): nat {
    a * b
  }

  /** The blocks up to the end of the map entry lie consecutively in flash. */
  lemma ReadableRun(mem: seq<byte>, at: nat, bs: seq<Block>, k: nat, remaining: nat)
    requires at + TotalBytes(bs) <= |mem| && RestOfEntry(bs, k, remaining)
    ensures var (from, len) := (at + OffsetOf(bs, k), Times(bs[k].length, remaining));
            && from + len <= |mem|
            && Flatten(BlocksOf(mem, at, bs), k, EntryEnd(bs, k)) == mem[from..from + len]
  {
    hide OffsetOf;
    var j := k + remaining;
    assert EntryEnd(bs, k) == j && OffsetOf(bs, j) == OffsetOf(bs, k) + Times(bs[k].length, remaining) by {
      RestOfEntryEnds(bs, k, remaining);
    }
    FlattenBlocks(mem, at, bs, k, j);
  }

  /** A read reply in terms of the bytes up to the end of the map entry. */
  lemma ReadFromRun(v: Volume, k: nat, offset: nat, size: nat, run: seq<byte>)
    requires Shaped(v) && k < |v.shape| && size > 0 && FvbAttributes.Readable(v.attributes)
    requires run == Flatten(v.blocks, k, EntryEnd(v.shape, k))
    ensures ReadReply(v, k, offset, size)
         == if offset > |run| then Reply(InvalidParameter, size, [])
            else if |run| < size + offset then Reply(BadBufferSize, |run| - offset, run[offset..])
            else Reply(Success, size, run[offset..offset + size])
  {
  }

  /** What a read of `size` bytes at `offset` of block `k` returns, in terms of the flash image. */
  lemma ReadServed(v: Volume, mem: seq<byte>, at: nat, k: nat, remaining: nat, offset: nat, size: nat)
    requires Shaped(v) && at + TotalBytes(v.shape) <= |mem| && v.blocks == BlocksOf(mem, at, v.shape)
    requires RestOfEntry(v.shape, k, remaining) && size > 0 && FvbAttributes.Readable(v.attributes)
    ensures var (from, len) := (at + OffsetOf(v.shape, k), Times(v.shape[k].length, remaining));
            && from + len <= |mem|
            && ReadReply(v, k, offset, size)
               == if offset > len then Reply(InvalidParameter, size, [])
                  else if len < size + offset
                  then Reply(BadBufferSize, len - offset, mem[from + offset..from + len])
                  else Reply(Success, size, mem[from + offset..from + offset + size])
  {
    hide OffsetOf, ReadReply, Flatten, EntryEnd, RestOfEntry, Shaped, Times;
    ReadableRun(mem, at, v.shape, k, remaining);
    var (from, len) := (at + OffsetOf(v.shape, k), Times(v.shape[k].length, remaining));
    ReadFromRun(v, k, offset, size, mem[from..from + len]);
    if offset <= len {
      SliceOfSlice(mem, from, len, offset, Min(size, len - offset));
    }
  }

  lemma AlignedSum(a: nat, b: nat)
    requires a % SECTOR == 0 && b % SECTOR == 0
    ensures (a + b) % SECTOR == 0
  {
  }

  /** Volume `v` as an abstract array of blocks. */
  function VolumeOf(mem: seq<byte>, deviceBase: nat, v: Instance): (r: Volume)
    requires deviceBase <= v.fvBase && v.fvBase - deviceBase + v.Size() <= |mem|
    ensures r.shape == v.Shape() && (|v.Shape()| <= v.numOfBlocks < U64 ==> Shaped(r))
  {
    Volume(v.Shape(), v.numOfBlocks, BlocksOf(mem, v.fvBase - deviceBase, v.Shape()), v.attributes)
  }

  ghost predicate AllWellFormed(vs: seq<Instance>, deviceBase: nat, flashSize: nat) {
    && (forall i :: 0 <= i < |vs| ==> WellFormed(vs[i], deviceBase, flashSize))
    && (forall i, j :: 0 <= i < j < |vs| ==> Apart(vs[i], vs[j]))
  }

  /** `volumes` is what the flash holds for each instance. */
  ghost predicate Tied(volumes: seq<Volume>, mem: seq<byte>, deviceBase: nat, vs: seq<Instance>)
    requires AllWellFormed(vs, deviceBase, |mem|)
  {
    && |volumes| == |vs|
    && forall i :: 0 <= i < |vs| ==> volumes[i] == VolumeOf(mem, deviceBase, vs[i])
  }

  /** A change confined to volume `i` leaves the other volumes as they are. */
  lemma Retie(volumes: seq<Volume>, a: seq<byte>, b: seq<byte>, deviceBase: nat, vs: seq<Instance>, i: nat)
    requires AllWellFormed(vs, deviceBase, |a|) && Tied(volumes, a, deviceBase, vs) && i < |vs|
    requires SameOutside(a, b, vs[i].fvBase - deviceBase, vs[i].Size())
    ensures Tied(volumes[i := VolumeOf(b, deviceBase, vs[i])], b, deviceBase, vs)
  {
    hide OffsetOf;
    forall j | 0 <= j < |vs| && j != i
      ensures VolumeOf(a, deviceBase, vs[j]) == VolumeOf(b, deviceBase, vs[j])
    {
      assert if j < i then Apart(vs[j], vs[i]) else Apart(vs[i], vs[j]);
      BlocksFrame(a, b, vs[j].fvBase - deviceBase, vs[j].Shape(), vs[i].fvBase - deviceBase, vs[i].Size());
    }
  }

  /** Volume lists that differ at most in the blocks of volume `i`. */
  ghost predicate SameButBlocks(a: seq<Volume>, b: seq<Volume>, i: nat) {
    i < |a| == |b| && b == a[i := a[i].(blocks := b[i].blocks)]
  }

  lemma RetieAttributes(volumes: seq<Volume>, mem: seq<byte>, deviceBase: nat, vs: seq<Instance>, i: nat,
                        word: bv32)
    requires AllWellFormed(vs, deviceBase, |mem|) && Tied(volumes, mem, deviceBase, vs) && i < |vs|
    ensures AllWellFormed(vs[i := vs[i].(attributes := word)], deviceBase, |mem|)
    ensures Tied(volumes[i := volumes[i].(attributes := word)], mem, deviceBase,
                 vs[i := vs[i].(attributes := word)])
  {
    hide OffsetOf, Blocks;
    var ws := vs[i := vs[i].(attributes := word)];
    forall j | 0 <= j < |vs| ensures ws[j].Shape() == vs[j].Shape() && ws[j].fvBase == vs[j].fvBase {
    }
  }

  /** The volumes after a change confined to block `k` of volume `i`. */
  lemma VolumeTouched(volumes: seq<Volume>, a: seq<byte>, b: seq<byte>, deviceBase: nat, vs: seq<Instance>,
                      i: nat, k: nat)
    requires AllWellFormed(vs, deviceBase, |a|) && Tied(volumes, a, deviceBase, vs) && i < |vs|
    requires k < |vs[i].Shape()|
    requires SameOutside(a, b, vs[i].fvBase - deviceBase + OffsetOf(vs[i].Shape(), k), vs[i].Shape()[k].length)
    ensures SameOutside(a, b, vs[i].fvBase - deviceBase, vs[i].Size())
    ensures Tied(volumes[i := VolumeOf(b, deviceBase, vs[i])], b, deviceBase, vs)
    ensures SameExcept(volumes[i].blocks, VolumeOf(b, deviceBase, vs[i]).blocks, k)
    ensures SameButBlocks(volumes, volumes[i := VolumeOf(b, deviceBase, vs[i])], i)
  {
    hide OffsetOf;
    var at, bs := vs[i].fvBase - deviceBase, vs[i].Shape();
    assert 0 <= at && at + TotalBytes(bs) <= |a| && volumes[i] == VolumeOf(a, deviceBase, vs[i]);
    OneBlockChanged(a, b, at, bs, k);
    Retie(volumes, a, b, deviceBase, vs, i);
  }

  /** `Locate` from map entry `i` on, in the coordinates of the whole map. */
  function Shift(p: Option<Place>, offset: nat): Option<Place> {
    match p
    case None => None
    case Some(q) => Some(q.(offset := offset + q.offset))
  }

  /** The 32-bit product of count and length does not wrap in a volume below 4 GiB. */
  lemma EntryBytes(m: seq<Entry>, k: nat)
    requires k < |m| && !Ends(m[k]) && TotalBytes(Blocks(m[k..], k)) < U32
    ensures Times(m[k].numBlocks, m[k].length) < U32
    ensures TotalBytes(Blocks(m[k + 1..], k + 1)) < U32
  {
    assert m[k..][0] == m[k] && m[k..][1..] == m[k + 1..];
    var run := seq(m[k].numBlocks, _ => Block(m[k].length, k));
    var rest := Blocks(m[k + 1..], k + 1);
    hide Blocks;
    OffsetUniform(run, |run|, m[k].length);
    OffsetConcat(run, rest, |run| + |rest|);
  }

  /** One round of the walk: the block is found in entry `k`, or the search goes on behind it. */
  lemma WalkStep(m: seq<Entry>, k: nat, start: nat, lba: nat, offset: nat)
    requires k < |m| && start <= lba
    requires TotalBytes(Blocks(m[k..], k)) < U32
    ensures var (n, len) := (m[k].numBlocks, m[k].length);
            var here := Shift(Locate(m[k..], lba - start), offset);
            && (Ends(m[k]) ==> here == None)
            && (!Ends(m[k]) && lba < start + n ==>
                  here == Some(Place(offset + (lba - start) * len, len, start + n - lba)))
            && (!Ends(m[k]) && start + n <= lba ==>
                  here == Shift(Locate(m[k + 1..], lba - (start + n)), offset + Times(n, len) % U32))
            && (!Ends(m[k]) ==> TotalBytes(Blocks(m[k + 1..], k + 1)) < U32)
  {
    hide Blocks, OffsetOf;
    assert m[k..][0] == m[k] && m[k..][1..] == m[k + 1..];
    if !Ends(m[k]) {
      EntryBytes(m, k);
    }
  }

  /** The search loop of FvbGetLbaAddress, with its 32-bit product of block count and length. */
  method WalkBlockMap(m: seq<Entry>, lba: nat) returns (place: Option<Place>)
    requires Terminated(m) && TotalBytes(Blocks(m)) < U32
    ensures place == Locate(m, lba)
  {
    hide Blocks, OffsetOf, Locate, Times;
    var k: nat, startLba: nat, offset: nat := 0, 0, 0;
    ghost var end :| 0 <= end < |m| && Ends(m[end]);
    assert m[0..] == m;
    ghost var found := Locate(m, lba);
    while true
      invariant 0 <= k <= end && startLba <= lba
      invariant Shift(Locate(m[k..], lba - startLba), offset) == found
      invariant TotalBytes(Blocks(m[k..], k)) < U32
      decreases end - k
    {
      var numBlocks, blockLength := m[k].numBlocks, m[k].length;
      WalkStep(m, k, startLba, lba, offset);
      if numBlocks == 0 || blockLength == 0 {
        return None;
      }
      var nextLba := startLba + numBlocks;
      if startLba <= lba < nextLba {
        return Some(Place(offset + (lba - startLba) * blockLength, blockLength, nextLba - lba));
      }
      startLba := nextLba;
      offset := offset + Times(numBlocks, blockLength) % U32;
      k := k + 1;
    }
  }

  /** Offset and length of a read or write add up without wrapping in 64 bits; the ranges of an erase are
      pairs of machine words. */
  predicate NoWrap(op: Op) {
    match op
    case Read(_, offset, size) => size.Some? ==> size.value + offset < U64
    case Write(_, offset, data) => data.Some? ==> |data.value| + offset < U64
    case Erase(ranges) => Words(ranges)
    case SetAttributes(_) => true
  }

  /** The same volumes, up to their attribute words. */
  ghost predicate SameLayout(vs: seq<Instance>, ws: seq<Instance>) {
    |vs| == |ws| && forall i :: 0 <= i < |vs| ==> vs[i].(attributes := 0) == ws[i].(attributes := 0)
  }

  /** Flash offset `x` belongs to one of the volumes. */
  ghost predicate InSomeVolume(vs: seq<Instance>, deviceBase: nat, x: int) {
    exists i :: 0 <= i < |vs| && vs[i].fvBase - deviceBase <= x < vs[i].fvBase - deviceBase + vs[i].Size()
  }

  /** Flash bytes that belong to no volume are the same in `a` and `b`. */
  ghost predicate OutsideAll(a: seq<byte>, b: seq<byte>, deviceBase: nat, vs: seq<Instance>) {
    && |a| == |b|
    && forall x {:trigger b[x]} :: 0 <= x < |a| && !InSomeVolume(vs, deviceBase, x) ==> a[x] == b[x]
  }

  lemma OutsideBytes(a: seq<byte>, b: seq<byte>, deviceBase: nat, vs: seq<Instance>, x: nat)
    requires OutsideAll(a, b, deviceBase, vs) && x < |a|
    requires forall i :: 0 <= i < |vs| ==>
               deviceBase + x < vs[i].fvBase || vs[i].fvBase + vs[i].Size() <= deviceBase + x
    ensures |b| == |a| && b[x] == a[x]
  {
  }

  lemma SameImage(a: seq<byte>, deviceBase: nat, vs: seq<Instance>)
    ensures OutsideAll(a, a, deviceBase, vs)
  {
  }

  lemma SameEverywhere(a: seq<byte>, from: int, len: int)
    ensures SameOutside(a, a, from, len)
  {
  }

  lemma OutsideOne(a: seq<byte>, b: seq<byte>, deviceBase: nat, vs: seq<Instance>, i: nat)
    requires i < |vs| && SameOutside(a, b, vs[i].fvBase - deviceBase, vs[i].Size())
    ensures OutsideAll(a, b, deviceBase, vs)
  {
  }

  lemma OutsideAllTrans(a: seq<byte>, b: seq<byte>, c: seq<byte>, deviceBase: nat, vs: seq<Instance>,
                        ws: seq<Instance>)
    requires SameLayout(ws, vs) && OutsideAll(a, b, deviceBase, vs) && OutsideAll(b, c, deviceBase, ws)
    ensures OutsideAll(a, c, deviceBase, vs)
  {
  }

  lemma SameLayoutHere(vs: seq<Instance>)
    ensures SameLayout(vs, vs)
  {
  }

  lemma SameLayoutTrans(us: seq<Instance>, vs: seq<Instance>, ws: seq<Instance>)
    requires SameLayout(us, vs) && SameLayout(vs, ws)
    ensures SameLayout(us, ws) && |us| == |ws|
  {
  }

  class FvbDriver {
    const spi: SpiProtocol
    const deviceBase: nat
    var instances: seq<Instance>
    ghost var volumes: seq<Volume>

    constructor (spi: SpiProtocol, deviceBase: nat, instances: seq<Instance>)
      requires spi.Whole() && AllWellFormed(instances, deviceBase, |spi.mem|)
      ensures Valid() && this.spi == spi && this.deviceBase == deviceBase && this.instances == instances
    {
      this.spi, this.deviceBase, this.instances := spi, deviceBase, instances;
      volumes := seq(|instances|, i requires 0 <= i < |instances| && AllWellFormed(instances, deviceBase, |spi.mem|)
                                    reads spi => VolumeOf(spi.mem, deviceBase, instances[i]));
    }

    /** Usable, pairwise disjoint volumes; `volumes` is the abstract value of the flash. */
    ghost predicate Valid()
      reads this, spi
    {
      && spi.Whole()
      && AllWellFormed(instances, deviceBase, |spi.mem|)
      && Tied(volumes, spi.mem, deviceBase, instances)
    }

    lemma ValidShaped(i: nat)
      requires Valid() && i < |instances|
      ensures |volumes| == |instances| && Shaped(volumes[i])
    {
      hide OffsetOf, Blocks, Shaped;
      assert WellFormed(instances[i], deviceBase, |spi.mem|);
    }

    lemma AllValidShaped()
      requires Valid()
      ensures |volumes| == |instances| && AllShaped(volumes)
    {
      hide Valid, Shaped;
      forall i | 0 <= i < |instances| ensures i < |volumes| && Shaped(volumes[i]) {
        ValidShaped(i);
      }
      ValidLength();
    }

    lemma ValidLength()
      requires Valid()
      ensures |volumes| == |instances|
    {
    }

    lemma ValidShapes(i: nat)
      requires Valid() && i < |instances|
      ensures |volumes| == |instances| && |volumes[i].blocks| == |instances[i].Shape()|
    {
    }

    /** FvbGetLbaAddress: succeeds exactly for the blocks of the volume. */
    method GetLbaAddress(i: nat, lba: nat)
      returns (status: Status, address: nat, length: nat, remaining: nat)
      requires Valid() && i < |instances|
      ensures status == if lba < |instances[i].Shape()| then Success else InvalidParameter
      ensures status == Success ==>
                var bs := instances[i].Shape();
                && address == instances[i].fvBase + OffsetOf(bs, lba)
                && length == bs[lba].length > 0
                && RestOfEntry(bs, lba, remaining)
    {
      hide OffsetOf;
      var place := WalkBlockMap(instances[i].blockMap, lba);
      LocateIsTiling(instances[i].blockMap, lba);
      match place
      case None => return InvalidParameter, 0, 0, 0;
      case Some(p) => return Success, instances[i].fvBase + p.offset, p.length, p.remaining;
    }

    /** FvbReadBlock. */
    method ReadBlock(i: nat, lba: nat, offset: nat, size: Option<nat>) returns (reply: Reply)
      requires Valid() && i < |instances|
      requires size.Some? ==> size.value + offset < U64
      ensures reply == Step(volumes[i], Read(lba, offset, size)).1
    {
      hide OffsetOf, RestOfEntry, EntryEnd, Flatten, Step, ReadReply, Shaped;
      ValidShaped(i);
      ReadRefused(volumes[i], lba, offset, size);
      if size.None? {
        return Reply(InvalidParameter, 0, []);
      }
      assert volumes[i] == VolumeOf(spi.mem, deviceBase, instances[i]);
      var numBytes := size.value;
      if numBytes == 0 {
        return Reply(InvalidParameter, 0, []);
      }
      var status, address, blockLength, numOfBlocks := GetLbaAddress(i, lba);
      if status != Success {
        return Reply(status, numBytes, []);
      }
      var lbaLength := Times(blockLength, numOfBlocks);
      if !FvbAttributes.Readable(instances[i].attributes) {
        return Reply(AccessDenied, numBytes, []);
      }
      ReadServed(volumes[i], spi.mem, instances[i].fvBase - deviceBase, lba, numOfBlocks, offset, numBytes);
      if offset > lbaLength {
        return Reply(InvalidParameter, numBytes, []);
      }
      if lbaLength < numBytes + offset {
        numBytes := lbaLength - offset;
        status := BadBufferSize;
      }
      var from := address - deviceBase + offset;
      return Reply(status, numBytes, spi.mem[from..from + numBytes]);
    }

    /** FvbWriteBlock. A failing program command can only damage the block written to. */
    method WriteBlock(i: nat, lba: nat, offset: nat, data: Option<seq<byte>>) returns (reply: Reply)
      requires Valid() && i < |instances|
      requires data.Some? ==> |data.value| + offset < U64
      modifies spi, this`volumes
      ensures Valid()
      ensures SameOutside(old(spi.mem), spi.mem, instances[i].fvBase - deviceBase, instances[i].Size())
      ensures SameButBlocks(old(volumes), volumes, i)
      ensures SameExcept(old(volumes)[i].blocks, volumes[i].blocks, lba)
      ensures spi.FaultFree() || reply.status != DeviceError ==>
                (volumes[i], reply) == Step(old(volumes)[i], Write(lba, offset, data))
    {
      hide OffsetOf;
      if data.None? {
        return Reply(InvalidParameter, 0, []);
      }
      var numBytes := |data.value|;
      if numBytes == 0 {
        return Reply(InvalidParameter, 0, []);
      }
      var status, address, lbaLength, _ := GetLbaAddress(i, lba);
      if status != Success {
        return Reply(status, numBytes, []);
      }
      if !FvbAttributes.Writable(instances[i].attributes) {
        return Reply(AccessDenied, numBytes, []);
      }
      if offset > lbaLength {
        return Reply(InvalidParameter, numBytes, []);
      }
      if lbaLength < numBytes + offset {
        numBytes := lbaLength - offset;
        status := BadBufferSize;
      }
      // The clipping status is overwritten here.
      status := ProgramBlock(i, lba, address, offset, data.value[..numBytes]);
      return Reply(status, numBytes, []);
    }

    /** The program command of a write, seen as a change of one block. */
    method ProgramBlock(i: nat, lba: nat, address: nat, offset: nat, data: seq<byte>)
      returns (status: Status)
      requires Valid() && i < |instances| && lba < |instances[i].Shape()|
      requires address == instances[i].fvBase + OffsetOf(instances[i].Shape(), lba)
      requires offset + |data| <= instances[i].Shape()[lba].length
      modifies spi, this`volumes
      ensures Valid()
      ensures SameOutside(old(spi.mem), spi.mem, instances[i].fvBase - deviceBase, instances[i].Size())
      ensures SameButBlocks(old(volumes), volumes, i)
      ensures SameExcept(old(volumes)[i].blocks, volumes[i].blocks, lba)
      ensures data == [] ==> status == InvalidParameter && volumes == old(volumes)
      ensures data != [] ==>
                && (status == Success || status == DeviceError)
                && (spi.FaultFree() ==> status == Success)
                && (status == Success ==> var blocks := old(volumes)[i].blocks;
                      volumes[i].blocks == blocks[lba := Programmed(blocks[lba], offset, data)])
    {
      hide OffsetOf;
      ghost var bs, at := instances[i].Shape(), instances[i].fvBase - deviceBase;
      BlockInside(bs, lba);
      status := ProgramBuffer(spi, deviceBase, data, address, offset);
      VolumeTouched(volumes, old(spi.mem), spi.mem, deviceBase, instances, i, lba);
      ProgrammedBlock(old(spi.mem), at, bs, lba, offset, data);
      volumes := volumes[i := VolumeOf(spi.mem, deviceBase, instances[i])];
    }

    /** FvbEraseBlock. */
    method EraseBlock(i: nat, lba: nat) returns (status: Status)
      requires Valid() && i < |instances|
      modifies spi, this`volumes
      ensures Valid()
      ensures SameOutside(old(spi.mem), spi.mem, instances[i].fvBase - deviceBase, instances[i].Size())
      ensures SameButBlocks(old(volumes), volumes, i)
      ensures SameExcept(old(volumes)[i].blocks, volumes[i].blocks, lba)
      ensures !FvbAttributes.Writable(instances[i].attributes) ==>
                status == AccessDenied && spi.mem == old(spi.mem) && volumes == old(volumes)
      ensures FvbAttributes.Writable(instances[i].attributes) ==>
                if !Erasable(instances[i].Shape(), lba) then
                  status == InvalidParameter && spi.mem == old(spi.mem) && volumes == old(volumes)
                else
                  && (status == Success || status == DeviceError)
                  && (spi.FaultFree() ==> status == Success)
                  && (status == Success ==>
                        volumes[i].blocks[lba] == Ones(|old(volumes)[i].blocks[lba]|))
    {
      hide OffsetOf;
      if !FvbAttributes.Writable(instances[i].attributes) {
        return AccessDenied;
      }
      var address, lbaLength, n;
      status, address, lbaLength, n := GetLbaAddress(i, lba);
      if status != Success {
        return status;
      }
      status := EraseSectorsOf(i, lba, address, lbaLength);
    }

    /** The sector erases of one block. */
    method EraseSectorsOf(i: nat, lba: nat, address: nat, length: nat) returns (status: Status)
      requires Valid() && i < |instances| && lba < |instances[i].Shape()|
      requires address == instances[i].fvBase + OffsetOf(instances[i].Shape(), lba)
      requires length == instances[i].Shape()[lba].length > 0
      modifies spi, this`volumes
      ensures Valid()
      ensures SameOutside(old(spi.mem), spi.mem, instances[i].fvBase - deviceBase, instances[i].Size())
      ensures SameButBlocks(old(volumes), volumes, i)
      ensures SameExcept(old(volumes)[i].blocks, volumes[i].blocks, lba)
      ensures length % SECTOR != 0 ==>
                status == InvalidParameter && spi.mem == old(spi.mem) && volumes == old(volumes)
      ensures length % SECTOR == 0 ==>
                && (status == Success || status == DeviceError)
                && (spi.FaultFree() ==> status == Success)
                && (status == Success ==> volumes[i].blocks[lba] == Ones(length))
    {
      hide OffsetOf;
      ghost var bs := instances[i].Shape();
      BlockInside(bs, lba);
      if length % SECTOR != 0 {
        ghost var none;
        status, none := SectorsErase(spi, deviceBase, address, length);
        return;
      }
      AlignedSum(instances[i].fvBase - deviceBase, OffsetOf(bs, lba));
      ghost var done;
      status, done := SectorsErase(spi, deviceBase, address, length);
      VolumeTouched(volumes, old(spi.mem), spi.mem, deviceBase, instances, i, lba);
      ErasedBlock(old(spi.mem), instances[i].fvBase - deviceBase, bs, lba);
      volumes := volumes[i := VolumeOf(spi.mem, deviceBase, instances[i])];
    }

    /** The validation pass of FvbProtocolEraseBlocks. */
    method CheckRanges(i: nat, ranges: seq<(nat, nat)>) returns (ok: bool)
      requires Valid() && i < |instances|
      requires Words(ranges)
      ensures ok == ValidRanges(ranges, instances[i].numOfBlocks)
    {
      hide OffsetOf;
      var numOfBlocks := instances[i].numOfBlocks;
      var index := 0;
      while index < |ranges|
        invariant 0 <= index <= |ranges|
        invariant ValidRanges(ranges[..index], numOfBlocks)
      {
        var (startingLba, numOfLba) := ranges[index];
        assert ranges[index] in ranges;
        if numOfLba == 0 || (startingLba + numOfLba) % U64 > numOfBlocks {
          return false;
        }
        index := index + 1;
      }
      assert ranges[..|ranges|] == ranges;
      return true;
    }

    /** FvbProtocolEraseBlocks: a range outside the counted blocks anywhere in the list leaves the flash
        alone; a failing command can only damage blocks of the list. */
    method EraseBlocks(i: nat, ranges: seq<(nat, nat)>) returns (reply: Reply)
      requires Valid() && i < |instances|
      requires Words(ranges)
      modifies spi, this`volumes
      ensures Valid()
      ensures SameOutside(old(spi.mem), spi.mem, instances[i].fvBase - deviceBase, instances[i].Size())
      ensures SameButBlocks(old(volumes), volumes, i)
      ensures !ValidRanges(ranges, volumes[i].count) ==>
                reply.status == InvalidParameter && spi.mem == old(spi.mem)
      ensures SameOutsideRanges(old(volumes)[i].blocks, volumes[i].blocks, ranges)
      ensures spi.FaultFree() || reply.status != DeviceError ==>
                (volumes[i], reply) == Step(old(volumes)[i], Erase(ranges))
    {
      hide OffsetOf;
      var ok := CheckRanges(i, ranges);
      if !ok {
        return Reply(InvalidParameter, 0, []);
      }
      var status := EraseRanges(i, ranges);
      return Reply(status, 0, []);
    }

    /** The erase pass over a list of nonempty ranges: it stops at the first block that does not exist or is
        not a whole number of sectors. */
    method EraseRanges(i: nat, ranges: seq<(nat, nat)>) returns (status: Status)
      requires Valid() && i < |instances| && ValidRanges(ranges, instances[i].numOfBlocks)
      modifies spi, this`volumes
      ensures Valid()
      ensures SameOutside(old(spi.mem), spi.mem, instances[i].fvBase - deviceBase, instances[i].Size())
      ensures SameButBlocks(old(volumes), volumes, i)
      ensures SameOutsideRanges(old(volumes)[i].blocks, volumes[i].blocks, ranges)
      ensures ranges == [] ==> status == Success && volumes == old(volumes)
      ensures !FvbAttributes.Writable(instances[i].attributes) ==>
                volumes == old(volumes) && (ranges != [] ==> status == AccessDenied)
      ensures FvbAttributes.Writable(instances[i].attributes) ==>
                && status in {Success, InvalidParameter, DeviceError}
                && (spi.FaultFree() ==> status != DeviceError)
                && (status != DeviceError ==>
                      var shape, blocks := instances[i].Shape(), old(volumes)[i].blocks;
                      && (status == Success <==> FirstBad(ranges, shape, 0) == |ranges|)
                      && volumes[i].blocks == Blanked(blocks, Reached(ranges, shape)))
    {
      hide OffsetOf, Valid, SameOutside, Blanked, SameOutsideRange, SameOutsideRanges, Clipped, FirstBad;
      ValidShapes(i);
      SameEverywhere(spi.mem, instances[i].fvBase - deviceBase, instances[i].Size());
      ghost var before, shape := volumes[i].blocks, instances[i].Shape();
      BlankNothing(before, ranges);
      var index := 0;
      while index < |ranges|
        invariant 0 <= index <= |ranges|
        invariant Valid()
        invariant SameOutside(old(spi.mem), spi.mem, instances[i].fvBase - deviceBase, instances[i].Size())
        invariant SameButBlocks(old(volumes), volumes, i)
        invariant volumes[i].blocks == Blanked(before, ranges[..index])
        invariant SameOutsideRanges(before, volumes[i].blocks, ranges)
        invariant FirstBad(ranges, shape, 0) == FirstBad(ranges, shape, index)
        invariant index > 0 ==> FvbAttributes.Writable(instances[i].attributes)
        invariant index == 0 ==> volumes == old(volumes)
      {
        assert ranges[index] in ranges;
        ghost var mem := spi.mem;
        ValidShapes(i);
        NextBad(ranges, shape, index);
        status := EraseRange(i, ranges[index].0, ranges[index].1);
        SameOutsideTrans(old(spi.mem), mem, spi.mem, instances[i].fvBase - deviceBase, instances[i].Size(),
                         instances[i].Size());
        BlankOneMore(before, volumes[i].blocks, ranges, index, shape);
        if status != Success {
          return status;
        }
        index := index + 1;
      }
      assert ranges[..|ranges|] == ranges;
      NoneBad(ranges, shape);
      return Success;
    }

    /** The inner loop of the erase pass, over one range of blocks. */
    method EraseRange(i: nat, start: nat, count: nat) returns (status: Status)
      requires Valid() && i < |instances| && 0 < count
      modifies spi, this`volumes
      ensures Valid()
      ensures SameOutside(old(spi.mem), spi.mem, instances[i].fvBase - deviceBase, instances[i].Size())
      ensures SameButBlocks(old(volumes), volumes, i)
      ensures SameOutsideRange(old(volumes)[i].blocks, volumes[i].blocks, (start, count))
      ensures !FvbAttributes.Writable(instances[i].attributes) ==>
                status == AccessDenied && volumes == old(volumes)
      ensures FvbAttributes.Writable(instances[i].attributes) ==>
                && status in {Success, InvalidParameter, DeviceError}
                && (spi.FaultFree() ==> status != DeviceError)
                && (status != DeviceError ==>
                      var range, shape := (start, count), instances[i].Shape();
                      && (status == Success <==> Clipped(range, shape) == range)
                      && volumes[i].blocks == Blanked(old(volumes)[i].blocks, [Clipped(range, shape)]))
    {
      hide OffsetOf, Valid, SameOutside, Blanked, SameExcept, SameOutsideRange, ErasableFrom, Erasable, Blocks,
           FvbAttributes.Writable;
      ValidShapes(i);
      SameEverywhere(spi.mem, instances[i].fvBase - deviceBase, instances[i].Size());
      ghost var before, shape := volumes[i].blocks, instances[i].Shape();
      BlankNone(before, start, count);
      var startingLba, numOfLba := start, count;
      ghost var done := 0;
      while numOfLba > 0
        invariant done + numOfLba == count && startingLba == start + done
        invariant Valid()
        invariant SameOutside(old(spi.mem), spi.mem, instances[i].fvBase - deviceBase, instances[i].Size())
        invariant SameButBlocks(old(volumes), volumes, i)
        invariant volumes[i].blocks == Blanked(before, [(start, done)])
        invariant SameOutsideRange(before, volumes[i].blocks, (start, count))
        invariant ErasableFrom(shape, start, count) == done + ErasableFrom(shape, startingLba, numOfLba)
        invariant done > 0 ==> FvbAttributes.Writable(instances[i].attributes)
        invariant done == 0 ==> volumes == old(volumes)
      {
        ghost var was, mem := volumes[i].blocks, spi.mem;
        ValidShapes(i);
        NextErasable(shape, startingLba, numOfLba);
        status := EraseBlock(i, startingLba);
        ValidShapes(i);
        SameOutsideTrans(old(spi.mem), mem, spi.mem, instances[i].fvBase - deviceBase, instances[i].Size(),
                         instances[i].Size());
        if Erasable(shape, startingLba) {
          BlankNext(before, was, volumes[i].blocks, start, done, count, startingLba);
        }
        if status != Success {
          return status;
        }
        done := done + 1;
        startingLba := startingLba + 1;
        numOfLba := numOfLba - 1;
      }
      NextErasable(shape, startingLba, 0);
      return Success;
    }

    /** FvbSetVolumeAttributes on the stored attribute word; the caller's copy of the word is updated
        only when the request is accepted. */
    method SetVolumeAttributes(i: nat, requested: bv32) returns (reply: Reply, attributes: bv32)
      requires Valid() && i < |instances|
      modifies this
      ensures Valid()
      ensures |volumes| == |old(volumes)|
      ensures instances == old(instances)[i := old(instances)[i].(attributes := volumes[i].attributes)]
      ensures volumes == old(volumes)[i := volumes[i]]
      ensures (volumes[i], reply) == Step(old(volumes)[i], SetAttributes(requested))
      ensures attributes == if reply.status == Success then instances[i].attributes else requested
    {
      hide OffsetOf, AllWellFormed, WellFormed, FvbAttributes.Verdict, FvbAttributes.SetAttributes;
      var word := instances[i].attributes;
      var new_ := FvbAttributes.SetAttributes(word, requested);
      RetieAttributes(volumes, spi.mem, deviceBase, instances, i, new_);
      instances := instances[i := instances[i].(attributes := new_)];
      volumes := volumes[i := volumes[i].(attributes := new_)];
      assert Valid();
      reply := Reply(FvbAttributes.Verdict(word, requested), 0, []);
      attributes := if reply.status == Success then new_ else requested;
    }

    /** One protocol call on volume `i`. On a fault-free part it is the abstract step; on any part the
        other volumes never change, nor do shape, attributes and unnamed blocks of this one, other than
        by the abstract step. */
    method Call(i: nat, op: Op) returns (reply: Reply)
      requires Valid() && i < |instances| && NoWrap(op)
      modifies this, spi
      ensures Valid() && |volumes| == |old(volumes)|
      ensures volumes == old(volumes)[i := volumes[i]]
      ensures Shaped(old(volumes)[i]) && Contained(old(volumes)[i], volumes[i], op)
      ensures SameLayout(instances, old(instances))
      ensures OutsideAll(old(spi.mem), spi.mem, deviceBase, instances)
      ensures spi.FaultFree() ==> (volumes[i], reply) == Step(old(volumes)[i], op)
    {
      hide OffsetOf, WellFormed, AllWellFormed, SameOutside, OutsideAll, Shaped, FvbAttributes.SetAttributes,
           FvbAttributes.Verdict;
      ValidShaped(i);
      match op
      case Read(lba, offset, size) =>
        reply := ReadBlock(i, lba, offset, size);
        SameImage(spi.mem, deviceBase, instances);
      case Write(lba, offset, data) =>
        reply := WriteBlock(i, lba, offset, data);
        OutsideOne(old(spi.mem), spi.mem, deviceBase, instances, i);
      case Erase(ranges) =>
        reply := EraseBlocks(i, ranges);
        OutsideOne(old(spi.mem), spi.mem, deviceBase, instances, i);
      case SetAttributes(requested) =>
        var attributes;
        reply, attributes := SetVolumeAttributes(i, requested);
        SameImage(spi.mem, deviceBase, instances);
    }

    /** Any run of protocol calls on a fault-free part refines a run over independent arrays of blocks.
        Faults or not, attribute words follow that run, blocks that no call names keep their contents,
        and so does flash outside the volumes. */
    method RunCalls(calls: seq<(nat, Op)>) returns (replies: seq<Reply>)
      requires Valid()
      requires forall c :: c in calls ==> c.0 < |instances| && NoWrap(c.1)
      modifies this, spi
      ensures Valid() && |instances| == |old(instances)| == |old(volumes)|
      ensures OutsideAll(old(spi.mem), spi.mem, deviceBase, old(instances))
      ensures AllShaped(old(volumes)) && AllContained(old(volumes), volumes, calls)
      ensures spi.FaultFree() ==> (volumes, replies) == Run(old(volumes), calls)
    {
      hide OffsetOf, Valid, Step, OutsideAll, Run, Shaped, NoWrap, AllShaped, RunSoFar, AllContained, Contained,
           SameLayout, RunSoFar;
      replies := [];
      ghost var before, exact := volumes, spi.FaultFree();
      AllValidShaped();
      RunBegins(before, calls, exact);
      SameImage(spi.mem, deviceBase, instances);
      SameLayoutHere(instances);
      var n := 0;
      while n < |calls|
        invariant 0 <= n <= |calls|
        invariant Valid() && |volumes| == |before| == |instances|
        invariant SameLayout(instances, old(instances))
        invariant OutsideAll(old(spi.mem), spi.mem, deviceBase, old(instances))
        invariant RunSoFar(before, volumes, calls, n, replies, exact)
      {
        var call := calls[n];
        assert call in calls;
        ghost var mem, vs, was := spi.mem, instances, volumes;
        AllValidShaped();
        var reply := Call(call.0, call.1);
        SameLayoutTrans(instances, vs, old(instances));
        OutsideAllTrans(old(spi.mem), mem, spi.mem, deviceBase, old(instances), instances);
        RunGoesOn(before, was, volumes, calls, n, replies, reply, exact);
        replies := replies + [reply];
        n := n + 1;
      }
      RunEnds(before, volumes, calls, replies, exact);
    }
  }
}
