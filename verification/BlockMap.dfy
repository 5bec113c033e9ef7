/** The run-length block map of a firmware volume header (section 3.2.1 of the PI
    Specification, Volume 3) and the tiling of the volume that it describes. */
module BlockMap {
  import opened Bytes

  datatype Entry = Entry(numBlocks: nat, length: nat)

  /** One logical block of the expanded map: its length and the map entry it comes from. */
  datatype Block = Block(length: nat, entry: nat)

  /** Where a logical block lies: byte offset in the volume, block length, and how many blocks
      are left in its map entry. */
  datatype Place = Place(offset: nat, length: nat, remaining: nat)

  predicate Ends(e: Entry) {
    e.numBlocks == 0 || e.length == 0
  }

  /** The map has the zero entry that the walk stops at. */
  predicate Terminated(m: seq<Entry>) {
    exists i :: 0 <= i < |m| && Ends(m[i])
  }

  /** The independent reading of a map: the list of all its blocks. */
  function Blocks(m: seq<Entry>, entry: nat := 0): (r: seq<Block>) {
    if m == [] || Ends(m[0]) then []
    else seq(m[0].numBlocks, _ => Block(m[0].length, entry)) + Blocks(m[1..], entry + 1)
  }

  /** Offset of block `k`: the bytes of all the blocks before it. */
  function OffsetOf(bs: seq<Block>, k: nat): nat
    requires k <= |bs|
  {
    if k == 0 then 0 else OffsetOf(bs, k - 1) + bs[k - 1].length
  }

  function TotalBytes(bs: seq<Block>): nat {
    OffsetOf(bs, |bs|)
  }

  /** The map walk of FvbGetLbaAddress. */
  function Locate(m: seq<Entry>, lba: nat): Option<Place> {
    if m == [] || Ends(m[0]) then None
    else if lba < m[0].numBlocks then
      Some(Place(lba * m[0].length, m[0].length, m[0].numBlocks - lba))
    else match Locate(m[1..], lba - m[0].numBlocks)
      case None => None
      case Some(p) => Some(p.(offset := m[0].numBlocks * m[0].length + p.offset))
  }

  lemma {:induction false} OffsetConcat(a: seq<Block>, b: seq<Block>, k: nat)
    requires k <= |a| + |b|
    ensures OffsetOf(a + b, k)
         == if k <= |a| then OffsetOf(a, k) else TotalBytes(a) + OffsetOf(b, k - |a|)
  {
    if k == 0 {
    } else {
      OffsetConcat(a, b, k - 1);
    }
  }

  lemma {:induction false} OffsetUniform(bs: seq<Block>, k: nat, len: nat)
    requires k <= |bs| && forall b :: b in bs ==> b.length == len
    ensures OffsetOf(bs, k) == k * len
  {
    if k == 0 {
    } else {
      OffsetUniform(bs, k - 1, len);
      assert k * len == (k - 1) * len + len;
    }
  }

  /** `remaining` counts the blocks from `k` to the end of its map entry. */
  ghost predicate RestOfEntry(bs: seq<Block>, k: nat, remaining: nat) {
    && k < |bs|
    && 0 < remaining
    && k + remaining <= |bs|
    && (forall j :: k <= j < k + remaining ==> bs[j] == bs[k])
    && (k + remaining < |bs| ==> bs[k + remaining].entry != bs[k].entry)
  }

  lemma {:induction false} EntriesAscend(m: seq<Entry>, entry: nat)
    ensures forall j :: 0 <= j < |Blocks(m, entry)| ==> Blocks(m, entry)[j].entry >= entry
  {
    if m == [] || Ends(m[0]) {
    } else {
      EntriesAscend(m[1..], entry + 1);
    }
  }

  /** The walk succeeds exactly for the blocks of the map, and finds the block's offset, its
      length and the rest of its entry. */
  lemma {:induction false} LocateIsTiling(m: seq<Entry>, lba: nat, entry: nat := 0)
    ensures Locate(m, lba).Some? <==> lba < |Blocks(m, entry)|
    ensures lba < |Blocks(m, entry)| ==>
              var bs, p := Blocks(m, entry), Locate(m, lba).value;
              && p.offset == OffsetOf(bs, lba)
              && p.length == bs[lba].length > 0
              && RestOfEntry(bs, lba, p.remaining)
  {
    if m == [] || Ends(m[0]) {
      return;
    }
    var run := seq(m[0].numBlocks, _ => Block(m[0].length, entry));
    var rest := Blocks(m[1..], entry + 1);
    var bs := Blocks(m, entry);
    assert bs == run + rest;
    EntriesAscend(m[1..], entry + 1);
    if lba < m[0].numBlocks {
      OffsetConcat(run, rest, lba);
      OffsetUniform(run, lba, m[0].length);
    } else {
      var k := lba - m[0].numBlocks;
      LocateIsTiling(m[1..], k, entry + 1);
      if lba < |bs| {
        OffsetConcat(run, rest, lba);
        OffsetUniform(run, |run|, m[0].length);
        assert forall j :: |run| <= j < |bs| ==> bs[j] == rest[j - |run|];
      }
    }
  }

  lemma {:induction false} OffsetMonotone(bs: seq<Block>, j: nat, k: nat)
    requires j <= k <= |bs|
    ensures OffsetOf(bs, j) <= OffsetOf(bs, k)
    ensures j < k ==> OffsetOf(bs, j) + bs[j].length <= OffsetOf(bs, k)
    decreases k - j
  {
    if j == k {
    } else {
      OffsetMonotone(bs, j + 1, k);
    }
  }

  /** Every byte of the volume lies in a block. */
  lemma {:induction false} BlockAt(bs: seq<Block>, offset: nat) returns (k: nat)
    requires offset < TotalBytes(bs)
    ensures k < |bs| && OffsetOf(bs, k) <= offset < OffsetOf(bs, k + 1)
  {
    k := 0;
    while offset >= OffsetOf(bs, k + 1)
      invariant k < |bs| && OffsetOf(bs, k) <= offset
      decreases |bs| - k
    {
      k := k + 1;
    }
  }

  /** The bytes of the volume that the walk gives block `k`: first and one past last. */
  function Interval(m: seq<Entry>, k: nat): (nat, nat) {
    match Locate(m, k)
    case None => (0, 0)
    case Some(p) => (p.offset, p.offset + p.length)
  }

  predicate Holds(m: seq<Entry>, k: nat, offset: nat) {
    Interval(m, k).0 <= offset < Interval(m, k).1
  }

  lemma IntervalIs(m: seq<Entry>, k: nat)
    ensures var bs := Blocks(m);
            Interval(m, k) == if k < |bs| then (OffsetOf(bs, k), OffsetOf(bs, k + 1)) else (0, 0)
    ensures k < |Blocks(m)| ==> Interval(m, k).1 <= TotalBytes(Blocks(m))
  {
    var bs := Blocks(m);
    LocateIsTiling(m, k);
    if k < |bs| {
      OffsetMonotone(bs, k + 1, |bs|);
    }
  }

  ghost predicate Covered(m: seq<Entry>, offset: nat) {
    exists k: nat :: Holds(m, k, offset)
  }

  /** The located intervals start at 0, follow one another without a gap, never overlap, and a
      byte is inside the volume exactly when some block holds it. */
  lemma LocatedBlocksTile(m: seq<Entry>)
    ensures |Blocks(m)| > 0 ==> Interval(m, 0).0 == 0
    ensures forall k: nat {:trigger Interval(m, k)} | k + 1 < |Blocks(m)| ::
              Interval(m, k + 1).0 == Interval(m, k).1
    ensures forall j: nat, k: nat {:trigger Interval(m, j), Interval(m, k)} | j < k < |Blocks(m)| ::
              Interval(m, j).1 <= Interval(m, k).0
    ensures forall o: nat :: o < TotalBytes(Blocks(m)) <==> Covered(m, o)
  {
    var bs := Blocks(m);
    IntervalIs(m, 0);
    forall k: nat | k + 1 < |bs| ensures Interval(m, k + 1).0 == Interval(m, k).1 {
      IntervalIs(m, k);
      IntervalIs(m, k + 1);
    }
    forall j: nat, k: nat | j < k < |bs| ensures Interval(m, j).1 <= Interval(m, k).0 {
      OffsetMonotone(bs, j + 1, k);
      IntervalIs(m, j);
      IntervalIs(m, k);
    }
    forall o: nat ensures o < TotalBytes(bs) <==> Covered(m, o) {
      if o < TotalBytes(bs) {
        var k := BlockAt(bs, o);
        IntervalIs(m, k);
        assert Holds(m, k, o);
      }
      if k: nat :| Holds(m, k, o) {
        IntervalIs(m, k);
      }
    }
  }
}
