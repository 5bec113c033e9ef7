/** Variable MTRR setup: the cacheable memory ranges reported by the resource HOBs are merged into a
    table of eight entries, which are then programmed one by one. */
module Mtrr {
  import opened Bytes

  const MAX_MTRR_NUMBER: nat := 8

  datatype CacheType = Uncacheable | WriteCombining | WriteProtected | WriteBack

  datatype Range = Range(base: nat, length: nat, cacheType: CacheType) {
    function End(): nat {
      base + length
    }

    predicate Holds(t: CacheType, x: int) {
      cacheType == t && base <= x < End()
    }

    /** The ranges overlap or lie directly next to each other. */
    predicate Touches(r: Range) {
      r.base <= End() && base <= r.End()
    }
  }

  datatype Entry = Entry(used: bool, range: Range)

  function Unset(): (table: seq<Entry>)
    ensures |table| == MAX_MTRR_NUMBER && forall k {:trigger table[k]} :: 0 <= k < |table| ==> !table[k].used
  {
    var e := Entry(false, Range(0, 0, Uncacheable));
    [e, e, e, e, e, e, e, e]
  }

  /** Address `x` is given cache type `t` by a used entry. */
  ghost predicate Covered(table: seq<Entry>, t: CacheType, x: int) {
    exists i :: 0 <= i < |table| && table[i].used && table[i].range.Holds(t, x)
  }

  ghost predicate Within(ranges: seq<Range>, t: CacheType, x: int) {
    exists r :: r in ranges && r.Holds(t, x)
  }

  /** The used entries come first. */
  ghost predicate UsedFirst(table: seq<Entry>) {
    forall i, j :: 0 <= i < j < |table| && table[j].used ==> table[i].used
  }

  /** No address computation on the used entries wraps around. */
  ghost predicate Bounded(table: seq<Entry>) {
    forall i :: 0 <= i < |table| && table[i].used ==> table[i].range.End() < U64
  }

  // One merge.

  predicate SameRegion(e: Entry, r: Range) {
    e.used && e.range.cacheType == r.cacheType && e.range.Touches(r)
  }

  /** The first entry from `i` on that is free or holds a touching range of the same type. */
  function Slot(table: seq<Entry>, r: Range, i: nat): (s: nat)
    requires i <= |table|
    ensures i <= s <= |table|
    ensures s < |table| ==> !table[s].used || SameRegion(table[s], r)
    ensures forall k :: i <= k < s ==> table[k].used && !SameRegion(table[k], r)
    decreases |table| - i
  {
    if i == |table| || !table[i].used || SameRegion(table[i], r) then i else Slot(table, r, i + 1)
  }

  function Join(e: Entry, r: Range): Range {
    if e.used then
      var base, end := Min(e.range.base, r.base), Max(r.End(), e.range.End());
      Range(base, end - base, r.cacheType)
    else
      r
  }

  function Merge(table: seq<Entry>, r: Range): (t: seq<Entry>)
    ensures |t| == |table|
  {
    var s := Slot(table, r, 0);
    if s == |table| then table else table[s := Entry(true, Join(table[s], r))]
  }

  predicate Accepts(table: seq<Entry>, r: Range) {
    Slot(table, r, 0) < |table|
  }

  method MergeMemoryRange(varMtrr: array<Entry>, address: nat, length: nat, cacheType: CacheType)
    returns (index: nat)
    requires address + length < U64 && Bounded(varMtrr[..])
    modifies varMtrr
    ensures varMtrr[..] == Merge(old(varMtrr[..]), Range(address, length, cacheType))
    ensures index == Slot(old(varMtrr[..]), Range(address, length, cacheType), 0)
    ensures index == varMtrr.Length ==> varMtrr[..] == old(varMtrr[..])
  {
    ghost var r := Range(address, length, cacheType);
    ghost var before := varMtrr[..];
    index := 0;
    while index < varMtrr.Length
      invariant 0 <= index <= varMtrr.Length && varMtrr[..] == before
      invariant Slot(before, r, 0) == Slot(before, r, index)
    {
      var e := varMtrr[index];
      assert e == before[index];
      if e.used {
        var end := e.range.base + e.range.length;
        assert end < U64;
        if !(address > end || address + length < e.range.base) && e.range.cacheType == cacheType {
          var newBase := Min(e.range.base, address);
          var newEnd := Max(address + length, end);
          varMtrr[index] := Entry(true, Range(newBase, newEnd - newBase, e.range.cacheType));
          return;
        }
      } else {
        varMtrr[index] := Entry(true, Range(address, length, cacheType));
        return;
      }
      index := index + 1;
    }
  }

  /** Joining touching ranges adds no address that was in neither. */
  lemma JoinHolds(e: Entry, r: Range, t: CacheType, x: int)
    requires !e.used || SameRegion(e, r)
    ensures Join(e, r).Holds(t, x) <==> (e.used && e.range.Holds(t, x)) || r.Holds(t, x)
  {
  }

  /** An accepted range is added to what the table covers, exactly and for its type alone; a range that
      is not accepted changes nothing. */
  lemma MergeCovers(table: seq<Entry>, r: Range, t: CacheType, x: int)
    ensures Covered(Merge(table, r), t, x) <==> Covered(table, t, x) || (Accepts(table, r) && r.Holds(t, x))
  {
    var s := Slot(table, r, 0);
    if s < |table| {
      var after := Merge(table, r);
      JoinHolds(table[s], r, t, x);
      assert after[s] == Entry(true, Join(table[s], r));
      if Covered(table, t, x) {
        var i :| 0 <= i < |table| && table[i].used && table[i].range.Holds(t, x);
        assert after[i].used && after[i].range.Holds(t, x);
      }
      if Covered(after, t, x) {
        var i :| 0 <= i < |after| && after[i].used && after[i].range.Holds(t, x);
        assert i != s ==> after[i] == table[i];
      }
    }
  }

  lemma MergeKeepsShape(table: seq<Entry>, r: Range)
    requires UsedFirst(table) && Bounded(table) && r.End() < U64
    ensures UsedFirst(Merge(table, r)) && Bounded(Merge(table, r))
  {
  }

  // Merging need not leave the ranges apart.

  predicate Apart(a: Entry, b: Entry) {
    a.used && b.used && a.range.cacheType == b.range.cacheType ==> !a.range.Touches(b.range)
  }

  /** No two used entries of one type overlap or lie next to each other. */
  ghost predicate Separated(table: seq<Entry>) {
    forall i, j :: 0 <= i < j < |table| ==> Apart(table[i], table[j])
  }

  /** The range touches at most one entry of its type. */
  ghost predicate JoinsAtMostOne(table: seq<Entry>, r: Range) {
    forall i, j :: 0 <= i < j < |table| ==> !(SameRegion(table[i], r) && SameRegion(table[j], r))
  }

  lemma JoinedApart(e: Entry, r: Range, other: Entry)
    requires !e.used || (SameRegion(e, r) && Apart(e, other))
    ensures Apart(Entry(true, Join(e, r)), other) <==> !SameRegion(other, r)
    ensures Apart(other, Entry(true, Join(e, r))) <==> !SameRegion(other, r)
  {
  }

  /** A merge keeps a separated table separated exactly if the new range touches at most one entry of
      its type: a range that closes the gap between two entries is merged into the first only. */
  lemma MergeSeparates(table: seq<Entry>, r: Range)
    requires UsedFirst(table) && Separated(table)
    ensures Separated(Merge(table, r)) <==> JoinsAtMostOne(table, r)
  {
    hide Join, SameRegion, Apart;
    var s := Slot(table, r, 0);
    ApartIsSymmetric(table);
    if s < |table| {
      var after := Merge(table, r);
      forall j | 0 <= j < |table| && j != s
        ensures Apart(after[s], after[j]) <==> !SameRegion(table[j], r)
        ensures Apart(after[j], after[s]) <==> !SameRegion(table[j], r)
      {
        JoinedApart(table[s], r, table[j]);
      }
      FreeMeansNone(table, r);
      if JoinsAtMostOne(table, r) {
        forall i, j | 0 <= i < j < |after| ensures Apart(after[i], after[j]) {
        }
      } else {
        var i, j :| 0 <= i < j < |table| && SameRegion(table[i], r) && SameRegion(table[j], r);
        var k := if i == s then j else i;
        assert !Apart(after[s], after[k]) && !Apart(after[k], after[s]);
      }
    }
  }

  lemma ApartIsSymmetric(table: seq<Entry>)
    requires Separated(table)
    ensures forall i, j :: 0 <= i < |table| && 0 <= j < |table| && i != j ==> Apart(table[i], table[j])
  {
  }

  /** When the range goes to a free entry, no entry touches it. */
  lemma FreeMeansNone(table: seq<Entry>, r: Range)
    requires UsedFirst(table) && Accepts(table, r)
    ensures var s := Slot(table, r, 0);
            if table[s].used then SameRegion(table[s], r)
            else forall k :: 0 <= k < |table| ==> !SameRegion(table[k], r)
  {
  }

  /** Three ranges, the last one bridging the gap between the others: the first entry grows over the
      second one, and an address is covered by both. */
  lemma BridgeLeavesOverlap()
    ensures var a, b := Range(0, 0x1000, WriteBack), Range(0x2000, 0x1000, WriteBack);
            var table := Fold([a, b, Range(0x1000, 0x1800, WriteBack)]);
            && table[0] == Entry(true, Range(0, 0x2800, WriteBack)) && table[1] == Entry(true, b)
            && table[0].range.Holds(WriteBack, 0x2400) && table[1].range.Holds(WriteBack, 0x2400)
            && !Separated(table)
  {
    var a, b, c := Range(0, 0x1000, WriteBack), Range(0x2000, 0x1000, WriteBack), Range(0x1000, 0x1800, WriteBack);
    assert [a, b, c][..2] == [a, b] && [a, b][..1] == [a] && [a][..0] == [];
    assert Fold([]) == Unset();
    var t1, t2 := Fold([a]), Fold([a, b]);
    assert t1[0] == Entry(true, a) && !t1[1].used;
    assert t2[0] == Entry(true, a) && t2[1] == Entry(true, b);
    var table := Fold([a, b, c]);
    assert !Apart(table[0], table[1]);
  }

  // All the HOBs.

  // Resource attribute bits of a resource descriptor HOB (PI Specification, Volume 3).
  const WRITE_PROTECTED: bv32 := 0x100
  const UNCACHEABLE: bv32 := 0x400
  const WRITE_COMBINEABLE: bv32 := 0x800
  const WRITE_BACK_CACHEABLE: bv32 := 0x2000

  datatype Resource = Resource(start: nat, length: nat, attributes: bv32)

  predicate Has(attributes: bv32, bit: bv32) {
    attributes & bit != 0
  }

  function CacheTypeOf(attributes: bv32): CacheType {
    if Has(attributes, WRITE_BACK_CACHEABLE) then WriteBack
    else if Has(attributes, WRITE_PROTECTED) then WriteProtected
    else if Has(attributes, WRITE_COMBINEABLE) && !Has(attributes, UNCACHEABLE) then WriteCombining
    else Uncacheable
  }

  /** Which attributes make a range cacheable: write-back wins over everything, write-protected over
      write-combining, and write-combining counts only without the uncacheable attribute. */
  lemma CacheableExactly(attributes: bv32)
    ensures CacheTypeOf(attributes) == WriteBack <==> attributes & 0x2000 != 0
    ensures CacheTypeOf(attributes) == WriteProtected <==> attributes & 0x2100 == 0x100
    ensures CacheTypeOf(attributes) == WriteCombining <==> attributes & 0x2D00 == 0x800
    ensures CacheTypeOf(attributes) == Uncacheable <==>
              attributes & 0x2100 == 0 && (attributes & 0x800 == 0 || attributes & 0x400 != 0)
  {
    BitCases(attributes);
  }

  lemma BitCases(a: bv32)
    ensures a & 0x2100 == 0x100 <==> a & 0x2000 == 0 && a & 0x100 != 0
    ensures a & 0x2D00 == 0x800 <==> a & 0x2000 == 0 && a & 0x100 == 0 && a & 0x800 != 0 && a & 0x400 == 0
    ensures a & 0x2100 == 0 <==> a & 0x2000 == 0 && a & 0x100 == 0
  {
  }

  function RangeOf(hob: Resource): Range {
    Range(hob.start, hob.length, CacheTypeOf(hob.attributes))
  }

  /** The range of a HOB holds exactly the addresses of the HOB, with its cache type. */
  lemma RangeOfHob(h: Resource, t: CacheType, x: int)
    ensures RangeOf(h).Holds(t, x) <==> CacheTypeOf(h.attributes) == t && h.start <= x < h.start + h.length
  {
  }

  /** The ranges to be merged, in HOB order. */
  function Cacheable(hobs: seq<Resource>): seq<Range> {
    if hobs == [] then []
    else
      var r := RangeOf(hobs[|hobs| - 1]);
      Cacheable(hobs[..|hobs| - 1]) + if r.cacheType == Uncacheable then [] else [r]
  }

  function Fold(ranges: seq<Range>): (table: seq<Entry>)
    ensures |table| == MAX_MTRR_NUMBER
  {
    if ranges == [] then Unset() else Merge(Fold(ranges[..|ranges| - 1]), ranges[|ranges| - 1])
  }

  /** The ranges for which a merge found an entry. */
  function Kept(ranges: seq<Range>): seq<Range> {
    if ranges == [] then []
    else
      var before, r := ranges[..|ranges| - 1], ranges[|ranges| - 1];
      Kept(before) + if Accepts(Fold(before), r) then [r] else []
  }

  ghost predicate AllBounded(ranges: seq<Range>) {
    forall r :: r in ranges ==> r.End() < U64
  }

  lemma WithinAppend(ranges: seq<Range>, r: Range, t: CacheType, x: int)
    ensures Within(ranges + [r], t, x) <==> Within(ranges, t, x) || r.Holds(t, x)
  {
  }

  /** The table covers exactly the addresses of the ranges kept, type by type. */
  lemma {:induction false} FoldCovers(ranges: seq<Range>, t: CacheType, x: int)
    ensures Covered(Fold(ranges), t, x) <==> Within(Kept(ranges), t, x)
  {
    hide Merge, Accepts, Within, Covered;
    if ranges == [] {
      NothingCovered(t, x);
    } else {
      var before, r := ranges[..|ranges| - 1], ranges[|ranges| - 1];
      FoldCovers(before, t, x);
      MergeCovers(Fold(before), r, t, x);
      WithinAppend(Kept(before), r, t, x);
      assert Kept(before) + [] == Kept(before);
    }
  }

  lemma NothingCovered(t: CacheType, x: int)
    ensures !Covered(Unset(), t, x) && !Within([], t, x)
  {
  }

  lemma MergeKeepsUsedFirst(table: seq<Entry>, r: Range)
    requires UsedFirst(table)
    ensures UsedFirst(Merge(table, r))
  {
  }

  lemma {:induction false} FoldUsedFirst(ranges: seq<Range>)
    ensures UsedFirst(Fold(ranges))
  {
    hide Merge, UsedFirst;
    if ranges == [] {
      UnsetShape();
    } else {
      FoldUsedFirst(ranges[..|ranges| - 1]);
      MergeKeepsUsedFirst(Fold(ranges[..|ranges| - 1]), ranges[|ranges| - 1]);
    }
  }

  lemma JoinGrows(e: Entry, r: Range, other: Entry)
    requires !e.used || SameRegion(e, r)
    ensures !Apart(e, other) ==> !Apart(Entry(true, Join(e, r)), other)
    ensures !Apart(other, e) ==> !Apart(other, Entry(true, Join(e, r)))
  {
  }

  /** Entries that touch go on touching. */
  lemma TouchingStays(table: seq<Entry>, r: Range)
    requires !Separated(table)
    ensures !Separated(Merge(table, r))
  {
    hide Join, Apart;
    var i, j :| 0 <= i < j < |table| && !Apart(table[i], table[j]);
    var s := Slot(table, r, 0);
    if s < |table| {
      var after := Merge(table, r);
      JoinGrows(table[s], r, table[i]);
      JoinGrows(table[s], r, table[j]);
      assert !Apart(after[i], after[j]);
    }
  }

  lemma NothingTouches()
    ensures Separated(Unset())
  {
  }

  /** After any sequence of ranges, the entries of each type are apart exactly if no range ever touched
      more than one entry of its type. */
  lemma {:induction false} FoldSeparates(ranges: seq<Range>)
    ensures Separated(Fold(ranges)) <==>
              forall k :: 0 <= k < |ranges| ==> JoinsAtMostOne(Fold(ranges[..k]), ranges[k])
  {
    hide Merge, Separated, JoinsAtMostOne, UsedFirst, Fold;
    if ranges == [] {
      NoneFolded();
      NothingTouches();
    } else {
      var n := |ranges| - 1;
      var before := ranges[..n];
      FoldSeparates(before);
      assert forall k :: 0 <= k < n ==> before[..k] == ranges[..k] && before[k] == ranges[k];
      LastFolded(ranges);
      FoldUsedFirst(before);
      if Separated(Fold(before)) {
        MergeSeparates(Fold(before), ranges[n]);
      } else {
        TouchingStays(Fold(before), ranges[n]);
      }
    }
  }

  lemma NoneFolded()
    ensures Fold([]) == Unset()
  {
  }

  lemma LastFolded(ranges: seq<Range>)
    requires ranges != []
    ensures Fold(ranges) == Merge(Fold(ranges[..|ranges| - 1]), ranges[|ranges| - 1])
  {
  }

  lemma {:induction false} FoldShape(ranges: seq<Range>)
    requires AllBounded(ranges)
    ensures UsedFirst(Fold(ranges)) && Bounded(Fold(ranges))
  {
    hide Merge, UsedFirst, Bounded;
    if ranges == [] {
      UnsetShape();
    } else {
      FoldShape(ranges[..|ranges| - 1]);
      MergeKeepsShape(Fold(ranges[..|ranges| - 1]), ranges[|ranges| - 1]);
    }
  }

  lemma UnsetShape()
    ensures UsedFirst(Unset()) && Bounded(Unset())
  {
  }

  /** Each range takes at most one entry. */
  lemma {:induction false} FreeBehind(ranges: seq<Range>, k: nat)
    requires |ranges| <= k < MAX_MTRR_NUMBER
    ensures !Fold(ranges)[k].used
  {
    hide Join, SameRegion;
    if ranges == [] {
    } else {
      FreeBehind(ranges[..|ranges| - 1], k - 1);
      FreeBehind(ranges[..|ranges| - 1], k);
    }
  }

  lemma FreeAccepts(table: seq<Entry>, r: Range, k: nat)
    requires k < |table| && !table[k].used
    ensures Accepts(table, r)
  {
  }

  /** With at most eight cacheable HOBs, none is lost. */
  lemma {:induction false} EightAreKept(ranges: seq<Range>)
    requires |ranges| <= MAX_MTRR_NUMBER
    ensures Kept(ranges) == ranges
  {
    hide Merge, Accepts, Fold;
    if ranges == [] {
    } else {
      var before, r := ranges[..|ranges| - 1], ranges[|ranges| - 1];
      EightAreKept(before);
      FreeBehind(before, |before|);
      FreeAccepts(Fold(before), r, |before|);
      assert ranges == before + [r];
    }
  }

  function Used(table: seq<Entry>): seq<Range> {
    if table == [] then []
    else
      var e := table[|table| - 1];
      Used(table[..|table| - 1]) + if e.used then [e.range] else []
  }

  lemma {:induction false} UsedCovers(table: seq<Entry>, t: CacheType, x: int)
    ensures Within(Used(table), t, x) <==> Covered(table, t, x)
  {
    if table == [] {
    } else {
      var before, e := table[..|table| - 1], table[|table| - 1];
      UsedCovers(before, t, x);
      WithinAppend(Used(before), e.range, t, x);
      CoveredAppend(table, t, x);
      assert Used(before) + [] == Used(before);
    }
  }

  lemma CoveredAppend(table: seq<Entry>, t: CacheType, x: int)
    requires table != []
    ensures var (before, e) := (table[..|table| - 1], table[|table| - 1]);
            Covered(table, t, x) <==> Covered(before, t, x) || (e.used && e.range.Holds(t, x))
  {
  }

  lemma {:induction false} CacheableBounded(hobs: seq<Resource>)
    requires forall h :: h in hobs ==> h.start + h.length < U64
    ensures AllBounded(Cacheable(hobs))
  {
    hide CacheTypeOf;
    if hobs == [] {
    } else {
      CacheableBounded(hobs[..|hobs| - 1]);
    }
  }

  /** What the HOBs ask for: some HOB of cache type `t` contains `x`. */
  ghost predicate Wanted(hobs: seq<Resource>, t: CacheType, x: int) {
    && t != Uncacheable
    && exists h :: h in hobs && CacheTypeOf(h.attributes) == t && h.start <= x < h.start + h.length
  }

  lemma {:induction false} CacheableIsWanted(hobs: seq<Resource>, t: CacheType, x: int)
    ensures Within(Cacheable(hobs), t, x) <==> Wanted(hobs, t, x)
  {
    hide CacheTypeOf;
    if hobs == [] {
    } else {
      var before, h := hobs[..|hobs| - 1], hobs[|hobs| - 1];
      CacheableIsWanted(before, t, x);
      WithinAppend(Cacheable(before), RangeOf(h), t, x);
      assert Cacheable(before) + [] == Cacheable(before);
      assert hobs == before + [h];
      RangeOfHob(h, t, x);
    }
  }

  /** What one more HOB does to the table. */
  lemma FoldHob(hobs: seq<Resource>, at: nat)
    requires at < |hobs|
    requires forall h :: h in hobs ==> h.start + h.length < U64
    ensures var (before, r) := (Fold(Cacheable(hobs[..at])), RangeOf(hobs[at]));
            && UsedFirst(before) && Bounded(before)
            && Fold(Cacheable(hobs[..at + 1])) == if r.cacheType == Uncacheable then before else Merge(before, r)
  {
    hide CacheTypeOf, Merge, UsedFirst, Bounded, AllBounded;
    var before := hobs[..at];
    assert hobs[..at + 1][..at] == before;
    CacheableBounded(before);
    FoldShape(Cacheable(before));
    var ranges := Cacheable(before);
    assert ranges + [] == ranges;
    assert (ranges + [RangeOf(hobs[at])])[..|ranges|] == ranges;
  }

  /** Merge the HOBs one after the other. */
  method MergeHobs(hobs: seq<Resource>, varMtrrs: array<Entry>)
    requires forall h :: h in hobs ==> h.start + h.length < U64
    requires varMtrrs[..] == Unset()
    modifies varMtrrs
    ensures varMtrrs[..] == Fold(Cacheable(hobs))
  {
    hide CacheTypeOf, Merge, Fold, Cacheable, Slot, UsedFirst, Bounded, Unset;
    NothingFolded();
    var at := 0;
    while at < |hobs|
      invariant 0 <= at <= |hobs| && varMtrrs[..] == Fold(Cacheable(hobs[..at]))
    {
      FoldHob(hobs, at);
      var cacheType := CacheTypeOf(hobs[at].attributes);
      if cacheType != Uncacheable {
        var index := MergeMemoryRange(varMtrrs, hobs[at].start, hobs[at].length, cacheType);
      }
      at := at + 1;
    }
    assert hobs[..at] == hobs;
  }

  lemma NothingFolded()
    ensures Fold(Cacheable([])) == Unset()
  {
  }

  /** The ranges programmed are those of the used entries; they cover exactly the ranges that found an
      entry, and with at most eight cacheable HOBs exactly what the HOBs ask for. */
  method PlatformMtrr(hobs: seq<Resource>) returns (programmed: seq<Range>)
    requires forall h :: h in hobs ==> h.start + h.length < U64
    ensures |programmed| <= MAX_MTRR_NUMBER && programmed == Used(Fold(Cacheable(hobs)))
    ensures forall t, x :: Within(programmed, t, x) <==> Within(Kept(Cacheable(hobs)), t, x)
    ensures |Cacheable(hobs)| <= MAX_MTRR_NUMBER ==>
              forall t, x :: Within(programmed, t, x) <==> Wanted(hobs, t, x)
  {
    hide Within, Wanted, Kept, Fold, Cacheable;
    var varMtrrs := new Entry[MAX_MTRR_NUMBER](i => Entry(false, Range(0, 0, Uncacheable)));
    MergeHobs(hobs, varMtrrs);
    programmed := [];
    var index := 0;
    while index < MAX_MTRR_NUMBER
      invariant 0 <= index <= MAX_MTRR_NUMBER && |programmed| <= index
      invariant programmed == Used(varMtrrs[..index])
    {
      assert varMtrrs[..index + 1][..index] == varMtrrs[..index];
      if varMtrrs[index].used {
        programmed := programmed + [varMtrrs[index].range];
      }
      index := index + 1;
    }
    assert varMtrrs[..index] == varMtrrs[..];
    ProgrammedCovers(hobs);
  }

  lemma ProgrammedCovers(hobs: seq<Resource>)
    ensures var programmed, ranges := Used(Fold(Cacheable(hobs))), Cacheable(hobs);
            && (forall t, x :: Within(programmed, t, x) <==> Within(Kept(ranges), t, x))
            && (|ranges| <= MAX_MTRR_NUMBER ==> forall t, x :: Within(programmed, t, x) <==> Wanted(hobs, t, x))
  {
    hide CacheTypeOf, Merge, Within, Wanted, Covered, Kept, Used, Fold, Cacheable;
    var ranges := Cacheable(hobs);
    var programmed := Used(Fold(ranges));
    if |ranges| <= MAX_MTRR_NUMBER {
      EightAreKept(ranges);
    }
    forall t, x
      ensures Within(programmed, t, x) <==> Within(Kept(ranges), t, x)
      ensures |ranges| <= MAX_MTRR_NUMBER ==> (Within(programmed, t, x) <==> Wanted(hobs, t, x))
    {
      UsedCovers(Fold(ranges), t, x);
      FoldCovers(ranges, t, x);
      CacheableIsWanted(hobs, t, x);
    }
  }
}
