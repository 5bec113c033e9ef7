/** The abstract firmware volume: an array of independent blocks with an attribute word, and the
    Firmware Volume Block2 operations on it (section 3.4.2 of the PI Specification, Volume 3). */
module FvbVolume {
  import opened Bytes
  import opened Nor
  import opened BlockMap
  import FvbAttributes

  /** `shape` gives each block's length and map entry, `blocks` its contents; `count` is the number of
      blocks that the erase requests are validated against. */
  datatype Volume = Volume(shape: seq<Block>, count: nat, blocks: seq<seq<byte>>, attributes: bv32)

  datatype Op =
    | Read(lba: nat, offset: nat, size: Option<nat>)
    | Write(lba: nat, offset: nat, data: Option<seq<byte>>)
    | Erase(ranges: seq<(nat, nat)>)
    | SetAttributes(requested: bv32)

  /** `count` is the caller's byte count on return, 0 where there is none. */
  datatype Reply = Reply(status: Status, count: nat, data: seq<byte>)

  ghost predicate Shaped(v: Volume) {
    && |v.blocks| == |v.shape| <= v.count < U64
    && forall k {:trigger v.blocks[k]} :: 0 <= k < |v.shape| ==> |v.blocks[k]| == v.shape[k].length
  }

  /** Blocks `i` up to `j`, one after the other. */
  function Flatten(blocks: seq<seq<byte>>, i: nat, j: nat): seq<byte>
    requires i <= j <= |blocks|
  {
    if i == j then [] else Flatten(blocks, i, j - 1) + blocks[j - 1]
  }

  lemma {:induction false} FlattenFirst(blocks: seq<seq<byte>>, i: nat, j: nat)
    requires i < j <= |blocks|
    ensures blocks[i] <= Flatten(blocks, i, j)
  {
    if i + 1 < j {
      FlattenFirst(blocks, i, j - 1);
    } else {
      assert Flatten(blocks, i, i) == [];
    }
  }

  /** One past the last block of the map entry that block `k` belongs to. */
  function EntryEnd(shape: seq<Block>, k: nat): (end: nat)
    requires k < |shape|
    ensures k < end <= |shape|
    decreases |shape| - k
  {
    if k + 1 < |shape| && shape[k + 1].entry == shape[k].entry then EntryEnd(shape, k + 1) else k + 1
  }

  /** A read takes bytes from consecutive blocks, up to the end of the map entry. */
  function ReadReply(v: Volume, lba: nat, offset: nat, size: nat): Reply
    requires Shaped(v)
  {
    if size == 0 || lba >= |v.shape| then Reply(InvalidParameter, size, [])
    else if !FvbAttributes.Readable(v.attributes) then Reply(AccessDenied, size, [])
    else
      var run := Flatten(v.blocks, lba, EntryEnd(v.shape, lba));
      if offset > |run| then Reply(InvalidParameter, size, [])
      else
        var n := Min(size, |run| - offset);
        Reply(if n < size then BadBufferSize else Success, n, run[offset..offset + n])
  }

  /** A write programs bytes of one block only, and reports success even when it was clipped. */
  function WriteStep(v: Volume, lba: nat, offset: nat, data: seq<byte>): (Volume, Reply)
    requires Shaped(v)
  {
    if data == [] || lba >= |v.shape| then (v, Reply(InvalidParameter, |data|, []))
    else if !FvbAttributes.Writable(v.attributes) then (v, Reply(AccessDenied, |data|, []))
    else if offset > |v.blocks[lba]| then (v, Reply(InvalidParameter, |data|, []))
    else
      var n := Min(|data|, |v.blocks[lba]| - offset);
      if n == 0 then (v, Reply(InvalidParameter, 0, []))
      else
        (v.(blocks := v.blocks[lba := Programmed(v.blocks[lba], offset, data[..n])]),
         Reply(Success, n, []))
  }

  /** The writes that are refused, and with which reply; none of them stores anything. */
  lemma WriteRefused(v: Volume, lba: nat, offset: nat, data: seq<byte>)
    requires Shaped(v)
    ensures Step(v, Write(lba, offset, None)) == (v, Reply(InvalidParameter, 0, []))
    ensures data == [] || lba >= |v.shape| ==>
              Step(v, Write(lba, offset, Some(data))) == (v, Reply(InvalidParameter, |data|, []))
    ensures data != [] && lba < |v.shape| && !FvbAttributes.Writable(v.attributes) ==>
              Step(v, Write(lba, offset, Some(data))) == (v, Reply(AccessDenied, |data|, []))
    ensures data != [] && lba < |v.shape| && FvbAttributes.Writable(v.attributes) && offset >= |v.blocks[lba]| ==>
              Step(v, Write(lba, offset, Some(data)))
              == (v, Reply(InvalidParameter, if offset > |v.blocks[lba]| then |data| else 0, []))
  {
  }

  /** All other writes succeed: the bytes that fit into the block are ANDed in at the offset, and every
      other byte of the volume is kept. */
  lemma WriteStores(v: Volume, lba: nat, offset: nat, data: seq<byte>)
    requires Shaped(v)
    ensures var (w, reply) := Step(v, Write(lba, offset, Some(data)));
            && (reply.status == Success <==>
                  && data != [] && lba < |v.shape| && FvbAttributes.Writable(v.attributes)
                  && offset < |v.blocks[lba]|)
            && (reply.status == Success ==>
                  && reply.count == (if |data| <= |v.blocks[lba]| - offset then |data| else |v.blocks[lba]| - offset)
                  && w == v.(blocks := v.blocks[lba := w.blocks[lba]]) && |w.blocks[lba]| == |v.blocks[lba]|
                  && forall j :: 0 <= j < |v.blocks[lba]| ==>
                       w.blocks[lba][j] == if offset <= j < offset + reply.count
                                           then And(v.blocks[lba][j], data[j - offset]) else v.blocks[lba][j])
  {
  }

  /** The reads that are refused, and with which reply. */
  lemma ReadRefused(v: Volume, lba: nat, offset: nat, size: Option<nat>)
    requires Shaped(v)
    ensures var reply := Step(v, Read(lba, offset, size)).1;
            && (size.None? ==> reply == Reply(InvalidParameter, 0, []))
            && (size.Some? ==>
                  if size.value == 0 || lba >= |v.shape| then reply == Reply(InvalidParameter, size.value, [])
                  else if !FvbAttributes.Readable(v.attributes) then reply == Reply(AccessDenied, size.value, [])
                  else reply == ReadReply(v, lba, offset, size.value))
  {
    hide Flatten, EntryEnd;
  }

  /** An attribute request touches the word only; it is accepted, denied or invalid exactly as follows, and
      an accepted one takes over the requested status bits. */
  lemma AttributeReply(v: Volume, requested: bv32)
    requires Shaped(v)
    ensures var ((w, reply), a) := (Step(v, SetAttributes(requested)), v.attributes);
            var matches, moves := FvbAttributes.Matches(a, requested), FvbAttributes.Moves(a, requested);
            && w == v.(attributes := w.attributes)
            && reply.count == 0 && reply.data == []
            && (reply.status == AccessDenied <==> matches && FvbAttributes.Locked(a) && moves)
            && (reply.status == Success <==>
                  matches && FvbAttributes.RespectsCapabilities(requested) && !(FvbAttributes.Locked(a) && moves))
            && reply.status in {Success, AccessDenied, InvalidParameter}
            && (if reply.status == Success then !FvbAttributes.Moves(w.attributes, requested) else w == v)
  {
    hide FvbAttributes.RespectsCapabilities, FvbAttributes.Locked, FvbAttributes.Verdict, FvbAttributes.SetAttributes,
         FvbAttributes.Matches, FvbAttributes.Moves, Shaped;
    FvbAttributes.Outcome(v.attributes, requested);
  }

  /** A write never reports that it was clipped: exactly the writes to a writable volume that start
      inside the block and reach behind its end store less than asked for and report success. */
  lemma ClippedWriteSucceeds(v: Volume, lba: nat, offset: nat, data: seq<byte>)
    requires Shaped(v)
    ensures var reply := WriteStep(v, lba, offset, data).1;
            && reply.status != BadBufferSize
            && (reply.status == Success && reply.count < |data| <==>
                  && lba < |v.blocks| && FvbAttributes.Writable(v.attributes)
                  && offset < |v.blocks[lba]| < offset + |data|)
  {
  }

  /** Two bytes written at the end of a one-byte block: one is stored, and the reply is success. */
  lemma ClippedWrite()
    ensures var v := Volume([Block(1, 0)], 1, [[0xFF]], FvbAttributes.WRITE_STATUS);
            && Shaped(v)
            && WriteStep(v, 0, 0, [0x5A, 0xA5]) == (v.(blocks := [[0x5A]]), Reply(Success, 1, []))
  {
    var v := Volume([Block(1, 0)], 1, [[0xFF]], FvbAttributes.WRITE_STATUS);
    AndOnes(0x5A);
    assert Programmed([0xFF], 0, [0x5A]) == [0x5A];
    assert [0x5A, 0xA5][..1] == [0x5A] && v.blocks[0 := [0x5A]] == [[0x5A]];
  }

  predicate InRange(range: (nat, nat), k: nat) {
    range.0 <= k < range.0 + range.1
  }

  predicate InRanges(ranges: seq<(nat, nat)>, k: nat) {
    exists i :: 0 <= i < |ranges| && InRange(ranges[i], k)
  }

  /** The validation of an erase request, with its 64-bit sums. */
  predicate ValidRanges(ranges: seq<(nat, nat)>, numOfBlocks: nat) {
    forall r :: r in ranges ==> r.1 > 0 && (r.0 + r.1) % U64 <= numOfBlocks
  }

  /** The blocks with every block of `ranges` blank. */
  function Blanked(blocks: seq<seq<byte>>, ranges: seq<(nat, nat)>): (r: seq<seq<byte>>)
    ensures |r| == |blocks|
    ensures forall k {:trigger r[k]} :: 0 <= k < |r| ==>
              r[k] == if InRanges(ranges, k) then Ones(|blocks[k]|) else blocks[k]
  {
    seq(|blocks|, k requires 0 <= k < |blocks| =>
      if InRanges(ranges, k) then Ones(|blocks[k]|) else blocks[k])
  }

  /** The block exists and is a whole number of sectors, so that the flash commands can erase it. */
  predicate Erasable(shape: seq<Block>, lba: nat) {
    lba < |shape| && shape[lba].length % SECTOR == 0
  }

  /** How many of the `count` blocks from `lba` on come before the first one that cannot be erased. */
  function ErasableFrom(shape: seq<Block>, lba: nat, count: nat): (n: nat)
    ensures n <= count && (n < count ==> !Erasable(shape, lba + n))
    ensures forall k :: lba <= k < lba + n ==> Erasable(shape, k)
    decreases count
  {
    if count == 0 || !Erasable(shape, lba) then 0 else 1 + ErasableFrom(shape, lba + 1, count - 1)
  }

  function Clipped(range: (nat, nat), shape: seq<Block>): (nat, nat) {
    (range.0, ErasableFrom(shape, range.0, range.1))
  }

  /** Index of the first range from `i` on that has a block which cannot be erased. */
  function FirstBad(ranges: seq<(nat, nat)>, shape: seq<Block>, i: nat): (k: nat)
    requires i <= |ranges|
    ensures i <= k <= |ranges|
    ensures k < |ranges| ==> Clipped(ranges[k], shape) != ranges[k]
    ensures forall j :: i <= j < k ==> Clipped(ranges[j], shape) == ranges[j]
    decreases |ranges| - i
  {
    if i == |ranges| || Clipped(ranges[i], shape) != ranges[i] then i else FirstBad(ranges, shape, i + 1)
  }

  /** What an erase pass gets through: all ranges, or those in front of the first bad one and the front
      of that. */
  function Reached(ranges: seq<(nat, nat)>, shape: seq<Block>): seq<(nat, nat)> {
    var k := FirstBad(ranges, shape, 0);
    if k == |ranges| then ranges else ranges[..k] + [Clipped(ranges[k], shape)]
  }

  /** A range that fails the validation rejects the whole list. The blocks of the other lists go blank in
      their order, up to the first one that cannot be erased. */
  function EraseStep(v: Volume, ranges: seq<(nat, nat)>): (Volume, Reply)
    requires Shaped(v)
  {
    if !ValidRanges(ranges, v.count) then (v, Reply(InvalidParameter, 0, []))
    else if ranges == [] then (v, Reply(Success, 0, []))
    else if !FvbAttributes.Writable(v.attributes) then (v, Reply(AccessDenied, 0, []))
    else
      var status := if FirstBad(ranges, v.shape, 0) == |ranges| then Success else InvalidParameter;
      (v.(blocks := Blanked(v.blocks, Reached(ranges, v.shape))), Reply(status, 0, []))
  }

  lemma ReachedInside(ranges: seq<(nat, nat)>, shape: seq<Block>, lba: nat)
    requires InRanges(Reached(ranges, shape), lba)
    ensures InRanges(ranges, lba)
  {
    var i :| 0 <= i < |Reached(ranges, shape)| && InRange(Reached(ranges, shape)[i], lba);
    assert InRange(ranges[i], lba);
  }

  /** Only blocks that can be erased are reached. */
  lemma ReachedErasable(ranges: seq<(nat, nat)>, shape: seq<Block>, lba: nat)
    requires InRanges(Reached(ranges, shape), lba)
    ensures Erasable(shape, lba)
  {
    var k := FirstBad(ranges, shape, 0);
    var i :| 0 <= i < |Reached(ranges, shape)| && InRange(Reached(ranges, shape)[i], lba);
    var r := ranges[i];
    assert Reached(ranges, shape)[i] == Clipped(r, shape);
  }

  /** An erase succeeds exactly if every range passes the validation and, unless the list is empty, the
      volume is writable and every block of every range can be erased. Then the blocks of the ranges are
      blank and the others are kept. A request that fails the validation or is denied changes nothing. */
  lemma EraseAnswers(v: Volume, ranges: seq<(nat, nat)>)
    requires Shaped(v)
    ensures var (w, reply) := Step(v, Erase(ranges));
            var valid := forall r :: r in ranges ==> r.1 > 0 && (r.0 + r.1) % 0x1_0000_0000_0000_0000 <= v.count;
            && reply.count == 0 && reply.data == []
            && reply.status in {Success, AccessDenied, InvalidParameter}
            && (reply.status == AccessDenied <==>
                  valid && ranges != [] && !FvbAttributes.Writable(v.attributes))
            && (reply.status == Success <==>
                  && valid
                  && (|| ranges == []
                      || (&& FvbAttributes.Writable(v.attributes)
                          && forall k: nat :: InRanges(ranges, k) ==>
                               k < |v.shape| && v.shape[k].length % 0x1000 == 0)))
            && (reply.status == Success ==>
                  && w == v.(blocks := w.blocks) && |w.blocks| == |v.blocks|
                  && forall k {:trigger w.blocks[k]} :: 0 <= k < |w.blocks| ==>
                       w.blocks[k] == if InRanges(ranges, k) then Ones(|v.blocks[k]|) else v.blocks[k])
            && (!valid || reply.status == AccessDenied ==> w == v)
  {
    hide FvbAttributes.Writable, InRange, FirstBad, Blanked;
    AllReached(ranges, v.shape);
  }

  /** An erase that meets a block which cannot be erased stops there: with `k` in range `i` the first one in
      the order of the request, exactly the blocks in front of it are blank, and the request is invalid. */
  lemma EraseStops(v: Volume, ranges: seq<(nat, nat)>, i: nat, k: nat)
    requires Shaped(v) && ValidRanges(ranges, v.count) && FvbAttributes.Writable(v.attributes)
    requires i < |ranges| && InRange(ranges[i], k) && !Erasable(v.shape, k)
    requires forall x: nat :: InRanges(ranges[..i], x) ==> Erasable(v.shape, x)
    requires forall x: nat :: ranges[i].0 <= x < k ==> Erasable(v.shape, x)
    ensures var (w, reply) := Step(v, Erase(ranges));
            && reply == Reply(InvalidParameter, 0, [])
            && w == v.(blocks := w.blocks) && |w.blocks| == |v.blocks|
            && forall x {:trigger w.blocks[x]} :: 0 <= x < |w.blocks| ==>
                 w.blocks[x] == if InRanges(ranges[..i], x) || ranges[i].0 <= x < k
                                then Ones(|v.blocks[x]|) else v.blocks[x]
  {
    hide InRanges, Blanked, Shaped, FvbAttributes.Writable;
    FirstBadIs(v.shape, ranges, i, k);
    assert Reached(ranges, v.shape) == ranges[..i] + [(ranges[i].0, k - ranges[i].0)];
    forall x: nat
      ensures InRanges(Reached(ranges, v.shape), x) <==> InRanges(ranges[..i], x) || ranges[i].0 <= x < k
    {
      InRangesSnoc(ranges[..i], (ranges[i].0, k - ranges[i].0), x);
    }
  }

  lemma InRangesSnoc(ranges: seq<(nat, nat)>, last: (nat, nat), x: nat)
    ensures InRanges(ranges + [last], x) <==> InRanges(ranges, x) || InRange(last, x)
  {
    var all := ranges + [last];
    if InRange(last, x) {
      assert all[|ranges|] == last;
    }
    if InRanges(ranges, x) {
      var i :| 0 <= i < |ranges| && InRange(ranges[i], x);
      assert all[i] == ranges[i];
    }
  }

  lemma FirstBadIs(shape: seq<Block>, ranges: seq<(nat, nat)>, i: nat, k: nat)
    requires i < |ranges| && InRange(ranges[i], k) && !Erasable(shape, k)
    requires forall x: nat :: InRanges(ranges[..i], x) ==> Erasable(shape, x)
    requires forall x: nat :: ranges[i].0 <= x < k ==> Erasable(shape, x)
    ensures FirstBad(ranges, shape, 0) == i && Clipped(ranges[i], shape) == (ranges[i].0, k - ranges[i].0)
  {
    ErasableFromIs(shape, ranges[i].0, ranges[i].1, k - ranges[i].0);
    forall j | 0 <= j < i ensures Clipped(ranges[j], shape) == ranges[j] {
      forall x: nat | ranges[j].0 <= x < ranges[j].0 + ranges[j].1 ensures Erasable(shape, x) {
        assert InRange(ranges[..i][j], x);
      }
      ErasableFromIs(shape, ranges[j].0, ranges[j].1, ranges[j].1);
    }
  }

  lemma {:induction false} ErasableFromIs(shape: seq<Block>, lba: nat, count: nat, n: nat)
    requires n <= count && (n < count ==> !Erasable(shape, lba + n))
    requires forall x: nat :: lba <= x < lba + n ==> Erasable(shape, x)
    ensures ErasableFrom(shape, lba, count) == n
    decreases n
  {
    if n > 0 {
      ErasableFromIs(shape, lba + 1, count - 1, n - 1);
    }
  }

  lemma AllReached(ranges: seq<(nat, nat)>, shape: seq<Block>)
    ensures FirstBad(ranges, shape, 0) == |ranges| <==> forall k: nat :: InRanges(ranges, k) ==> Erasable(shape, k)
  {
    var bad := FirstBad(ranges, shape, 0);
    if bad < |ranges| {
      var k := ranges[bad].0 + Clipped(ranges[bad], shape).1;
      assert InRange(ranges[bad], k) && !Erasable(shape, k);
    } else {
      forall i, k: nat | 0 <= i < |ranges| && InRange(ranges[i], k) ensures Erasable(shape, k) {
        assert Clipped(ranges[i], shape) == ranges[i];
      }
    }
  }

  // The promise of the erase request: one that is refused as invalid has changed nothing.

  /** Start and count are 64 and 32 bits wide, and no start is the value that ends the list. */
  predicate Words(ranges: seq<(nat, nat)>) {
    forall r :: r in ranges ==> r.0 < U64 - 1 && r.1 < U32
  }

  predicate NoneWraps(ranges: seq<(nat, nat)>) {
    forall r :: r in ranges ==> r.0 + r.1 < U64
  }

  ghost predicate Harmless(v: Volume, ranges: seq<(nat, nat)>)
    requires Shaped(v)
  {
    EraseStep(v, ranges).1.status == InvalidParameter ==> EraseStep(v, ranges).0 == v
  }

  /** The promise, for every request. */
  ghost predicate ValidatesFirst(v: Volume)
    requires Shaped(v)
  {
    forall ranges :: Words(ranges) ==> Harmless(v, ranges)
  }

  /** The promise, for the requests in which start plus count does not wrap. */
  ghost predicate ValidatesUnwrapped(v: Volume)
    requires Shaped(v)
  {
    forall ranges :: Words(ranges) && NoneWraps(ranges) ==> Harmless(v, ranges)
  }

  /** Every block that can be erased is blank. */
  predicate NothingToErase(v: Volume) {
    forall k :: 0 <= k < |v.blocks| && Erasable(v.shape, k) ==> v.blocks[k] == Ones(|v.blocks[k]|)
  }

  predicate AllErasable(v: Volume) {
    forall k :: 0 <= k < v.count ==> Erasable(v.shape, k)
  }

  lemma BlankIsHarmless(v: Volume, ranges: seq<(nat, nat)>)
    requires Shaped(v) && NothingToErase(v)
    ensures Harmless(v, ranges)
  {
    forall k | 0 <= k < |v.blocks| && InRanges(Reached(ranges, v.shape), k)
      ensures v.blocks[k] == Ones(|v.blocks[k]|)
    {
      ReachedErasable(ranges, v.shape, k);
    }
    assert Blanked(v.blocks, Reached(ranges, v.shape)) == v.blocks;
  }

  lemma ErasableIsHarmless(v: Volume, ranges: seq<(nat, nat)>)
    requires Shaped(v) && AllErasable(v) && NoneWraps(ranges)
    ensures Harmless(v, ranges)
  {
    if ValidRanges(ranges, v.count) {
      forall i | 0 <= i < |ranges| ensures Clipped(ranges[i], v.shape) == ranges[i] {
        assert ranges[i] in ranges;
      }
    }
  }

  /** A valid request for a block with contents and then for one that cannot be erased blanks the first
      and fails as invalid. */
  lemma PairBreaks(v: Volume, j: nat, bad: (nat, nat))
    requires Shaped(v) && FvbAttributes.Writable(v.attributes)
    requires Erasable(v.shape, j) && v.blocks[j] != Ones(|v.blocks[j]|)
    requires bad.1 > 0 && !Erasable(v.shape, bad.0) && ValidRanges([(j, 1), bad], v.count)
    ensures !Harmless(v, [(j, 1), bad])
  {
    var ranges := [(j, 1), bad];
    FirstBadOfPair(v.shape, j, bad);
    var reached := Reached(ranges, v.shape);
    assert reached[0] == (j, 1) && InRange(reached[0], j);
    assert EraseStep(v, ranges).0.blocks[j] != v.blocks[j];
  }

  lemma FirstBadOfPair(shape: seq<Block>, j: nat, bad: (nat, nat))
    requires Erasable(shape, j) && bad.1 > 0 && !Erasable(shape, bad.0)
    ensures FirstBad([(j, 1), bad], shape, 0) == 1
  {
    assert ErasableFrom(shape, j, 1) == 1;
  }

  /** For the requests that do not wrap, a writable volume keeps the promise exactly when every counted
      block exists and is a whole number of sectors, or when there is nothing left to erase. */
  lemma ValidatesExactly(v: Volume)
    requires Shaped(v) && FvbAttributes.Writable(v.attributes)
    ensures ValidatesUnwrapped(v) <==> AllErasable(v) || NothingToErase(v)
  {
    hide Shaped, Harmless;
    if NothingToErase(v) {
      forall ranges ensures Harmless(v, ranges) {
        BlankIsHarmless(v, ranges);
      }
    } else if AllErasable(v) {
      forall ranges | NoneWraps(ranges) ensures Harmless(v, ranges) {
        ErasableIsHarmless(v, ranges);
      }
    } else {
      var j :| 0 <= j < |v.blocks| && Erasable(v.shape, j) && v.blocks[j] != Ones(|v.blocks[j]|);
      var b :| 0 <= b < v.count && !Erasable(v.shape, b);
      CountBounds(v);
      PairIsValid(v, j, (b, 1));
      PairBreaks(v, j, (b, 1));
    }
  }

  lemma CountBounds(v: Volume)
    requires Shaped(v)
    ensures v.count < U64 && (v.shape != [] ==> 1 <= v.count)
  {
  }

  lemma PairIsValid(v: Volume, j: nat, bad: (nat, nat))
    requires Shaped(v) && Erasable(v.shape, j)
    requires bad.0 < U64 - 1 && 0 < bad.1 < U32 && (bad.0 + bad.1) % U64 <= v.count
    ensures Words([(j, 1), bad]) && ValidRanges([(j, 1), bad], v.count)
    ensures bad.0 + bad.1 < U64 ==> NoneWraps([(j, 1), bad])
  {
  }

  /** For all requests: a range whose start plus count wraps passes the validation, and its blocks do not
      exist. So a writable volume keeps the promise only when there is nothing left to erase. */
  lemma WrappedNeverValidates(v: Volume)
    requires Shaped(v) && FvbAttributes.Writable(v.attributes) && |v.shape| < U32
    ensures ValidatesFirst(v) <==> NothingToErase(v)
  {
    hide Shaped, Harmless;
    if NothingToErase(v) {
      forall ranges ensures Harmless(v, ranges) {
        BlankIsHarmless(v, ranges);
      }
    } else {
      var j :| 0 <= j < |v.blocks| && Erasable(v.shape, j) && v.blocks[j] != Ones(|v.blocks[j]|);
      CountBounds(v);
      PairIsValid(v, j, (U64 - 2, 3));
      PairBreaks(v, j, (U64 - 2, 3));
    }
  }

  /** On a volume of one block, an erase of that block and of three blocks from 2^64 - 2 on passes the
      validation, erases the block and then fails as invalid. */
  lemma WrappedRequest(contents: seq<byte>)
    requires |contents| == SECTOR
    ensures var v := Volume([Block(SECTOR, 0)], 1, [contents], FvbAttributes.WRITE_STATUS);
            var ranges := [(0, 1), (U64 - 2, 3)];
            && Shaped(v) && AllErasable(v) && Words(ranges) && ValidRanges(ranges, v.count)
            && EraseStep(v, ranges) == (v.(blocks := [Ones(SECTOR)]), Reply(InvalidParameter, 0, []))
  {
    var v := Volume([Block(SECTOR, 0)], 1, [contents], FvbAttributes.WRITE_STATUS);
    var ranges := [(0, 1), (U64 - 2, 3)];
    FirstBadOfPair(v.shape, 0, (U64 - 2, 3));
    var reached := Reached(ranges, v.shape);
    assert reached[0] == (0, 1) && InRange(reached[0], 0);
    assert Blanked([contents], reached) == [Ones(SECTOR)];
  }

  function AttributeStep(v: Volume, requested: bv32): (Volume, Reply) {
    (v.(attributes := FvbAttributes.SetAttributes(v.attributes, requested)),
     Reply(FvbAttributes.Verdict(v.attributes, requested), 0, []))
  }

  function Step(v: Volume, op: Op): (r: (Volume, Reply))
    requires Shaped(v)
    ensures Shaped(r.0) && r.0.shape == v.shape && r.0.count == v.count
  {
    match op
    case Read(lba, offset, size) =>
      (v, if size.None? then Reply(InvalidParameter, 0, []) else ReadReply(v, lba, offset, size.value))
    case Write(lba, offset, data) =>
      if data.None? then (v, Reply(InvalidParameter, 0, [])) else WriteStep(v, lba, offset, data.value)
    case Erase(ranges) => EraseStep(v, ranges)
    case SetAttributes(requested) => AttributeStep(v, requested)
  }

  ghost predicate AllShaped(vs: seq<Volume>) {
    forall i :: 0 <= i < |vs| ==> Shaped(vs[i])
  }

  /** A run of requests, each to one of several independent volumes. */
  function Run(vs: seq<Volume>, calls: seq<(nat, Op)>): (r: (seq<Volume>, seq<Reply>))
    requires AllShaped(vs)
    requires forall c :: c in calls ==> c.0 < |vs|
    ensures AllShaped(r.0) && |r.0| == |vs| && |r.1| == |calls|
    decreases |calls|
  {
    if calls == [] then (vs, [])
    else
      var (i, op) := calls[0];
      var (v, reply) := Step(vs[i], op);
      var (end, replies) := Run(vs[i := v], calls[1..]);
      (end, [reply] + replies)
  }

  lemma {:induction false} RunSnoc(vs: seq<Volume>, calls: seq<(nat, Op)>, call: (nat, Op))
    requires AllShaped(vs)
    requires forall c :: c in calls + [call] ==> c.0 < |vs|
    ensures forall c :: c in calls ==> c in calls + [call]
    ensures var (mid, replies) := Run(vs, calls);
            var (v, reply) := Step(mid[call.0], call.1);
            Run(vs, calls + [call]) == (mid[call.0 := v], replies + [reply])
    decreases |calls|
  {
    assert call in calls + [call];
    assert forall c :: c in calls ==> c in calls + [call];
    if calls == [] {
      var (v, reply) := Step(vs[call.0], call.1);
      assert (calls + [call])[0] == call && (calls + [call])[1..] == calls;
      var none: seq<Reply> := [];
      assert Run(vs, calls) == (vs, none) && Run(vs[call.0 := v], calls) == (vs[call.0 := v], none);
      assert [reply] + none == none + [reply];
    } else {
      var (i, op) := calls[0];
      var (v, reply) := Step(vs[i], op);
      assert (calls + [call])[0] == calls[0] && (calls + [call])[1..] == calls[1..] + [call];
      RunSnoc(vs[i := v], calls[1..], call);
      var (mid, replies) := Run(vs[i := v], calls[1..]);
      var last := Step(mid[call.0], call.1).1;
      assert [reply] + (replies + [last]) == ([reply] + replies) + [last];
    }
  }

  lemma EraseOne(v: Volume, lba: nat)
    requires Shaped(v) && lba < |v.shape| && FvbAttributes.Writable(v.attributes)
    requires v.shape[lba].length % SECTOR == 0
    ensures var (erased, reply) := Step(v, Erase([(lba, 1)]));
            && reply == Reply(Success, 0, [])
            && erased.attributes == v.attributes && erased.blocks[lba] == Ones(|v.blocks[lba]|)
  {
    assert ErasableFrom(v.shape, lba, 1) == 1;
    assert FirstBad([(lba, 1)], v.shape, 0) == 1;
    assert InRange([(lba, 1)][0], lba);
  }

  lemma WriteBlank(v: Volume, lba: nat, offset: nat, data: seq<byte>)
    requires Shaped(v) && lba < |v.shape| && 0 < |data| && offset + |data| <= v.shape[lba].length
    requires FvbAttributes.Writable(v.attributes) && v.blocks[lba] == Ones(|v.blocks[lba]|)
    ensures var (written, reply) := Step(v, Write(lba, offset, Some(data)));
            && reply == Reply(Success, |data|, [])
            && written.attributes == v.attributes
            && written.blocks[lba][offset..offset + |data|] == data
  {
    assert data[..|data|] == data;
    ProgramBlank(v.blocks[lba], offset, data);
  }

  lemma ReadBack(v: Volume, lba: nat, offset: nat, data: seq<byte>)
    requires Shaped(v) && lba < |v.shape| && 0 < |data| && offset + |data| <= v.shape[lba].length
    requires FvbAttributes.Readable(v.attributes) && v.blocks[lba][offset..offset + |data|] == data
    ensures Step(v, Read(lba, offset, Some(|data|))).1 == Reply(Success, |data|, data)
  {
    var run := Flatten(v.blocks, lba, EntryEnd(v.shape, lba));
    FlattenFirst(v.blocks, lba, EntryEnd(v.shape, lba));
    assert run[offset..offset + |data|] == v.blocks[lba][offset..offset + |data|];
  }

  lemma RunNone(vs: seq<Volume>)
    requires AllShaped(vs)
    ensures Run(vs, []) == (vs, [])
  {
  }

  /** A run of three requests to the only volume, step by step. */
  lemma RunThree(v: Volume, a: Op, b: Op, c: Op)
    requires Shaped(v)
    ensures var (v1, r1) := Step(v, a);
            var (v2, r2) := Step(v1, b);
            var (v3, r3) := Step(v2, c);
            Run([v], [(0, a), (0, b), (0, c)]) == ([v3], [r1, r2, r3])
  {
    hide Step, Shaped, Run;
    var (v1, r1) := Step(v, a);
    var (v2, r2) := Step(v1, b);
    var (v3, r3) := Step(v2, c);
    var none: seq<(nat, Op)>, silent: seq<Reply> := [], [];
    RunNone([v]);
    assert [v][0 := v1] == [v1] && [v1][0 := v2] == [v2] && [v2][0 := v3] == [v3];
    RunSnoc([v], none, (0, a));
    assert none + [(0, a)] == [(0, a)] && silent + [r1] == [r1];
    RunSnoc([v], [(0, a)], (0, b));
    assert [(0, a)] + [(0, b)] == [(0, a), (0, b)] && [r1] + [r2] == [r1, r2];
    RunSnoc([v], [(0, a), (0, b)], (0, c));
    assert [(0, a), (0, b)] + [(0, c)] == [(0, a), (0, b), (0, c)] && [r1, r2] + [r3] == [r1, r2, r3];
  }

  /** Erasing a block, writing into it and reading the same place back returns the data written. */
  lemma EraseWriteRead(v: Volume, lba: nat, offset: nat, data: seq<byte>)
    requires Shaped(v) && lba < |v.shape| && 0 < |data| && offset + |data| <= v.shape[lba].length
    requires v.shape[lba].length % SECTOR == 0
    requires FvbAttributes.Writable(v.attributes) && FvbAttributes.Readable(v.attributes)
    ensures var calls := [(0, Erase([(lba, 1)])), (0, Write(lba, offset, Some(data))),
                          (0, Read(lba, offset, Some(|data|)))];
            Run([v], calls).1 == [Reply(Success, 0, []), Reply(Success, |data|, []),
                                  Reply(Success, |data|, data)]
  {
    hide Step, Run;
    var erased := Step(v, Erase([(lba, 1)])).0;
    var written := Step(erased, Write(lba, offset, Some(data))).0;
    EraseOne(v, lba);
    WriteBlank(erased, lba, offset, data);
    ReadBack(written, lba, offset, data);
    RunThree(v, Erase([(lba, 1)]), Write(lba, offset, Some(data)), Read(lba, offset, Some(|data|)));
  }

  /** The request writes or erases block `lba`. */
  predicate Names(op: Op, lba: nat) {
    match op
    case Write(l, _, _) => l == lba
    case Erase(ranges) => InRanges(ranges, lba)
    case _ => false
  }

  predicate Touches(call: (nat, Op), i: nat, lba: nat) {
    call.0 == i && Names(call.1, lba)
  }

  lemma StepKeeps(v: Volume, op: Op, lba: nat)
    requires Shaped(v) && lba < |v.blocks| && !Names(op, lba)
    ensures Step(v, op).0.blocks[lba] == v.blocks[lba]
  {
    if op.Erase? && InRanges(Reached(op.ranges, v.shape), lba) {
      ReachedInside(op.ranges, v.shape, lba);
    }
  }

  /** What becomes of the attribute word depends on the word alone. */
  lemma StepAttributes(v: Volume, w: Volume, op: Op)
    requires Shaped(v) && Shaped(w) && v.attributes == w.attributes
    ensures Step(v, op).0.attributes == Step(w, op).0.attributes
  {
    hide FvbAttributes.SetAttributes, FvbAttributes.Verdict;
  }

  /** Requests that never name block `lba` of volume `i` leave its contents alone. */
  lemma {:induction false} UntouchedBlock(vs: seq<Volume>, calls: seq<(nat, Op)>, i: nat, lba: nat)
    requires AllShaped(vs) && i < |vs| && lba < |vs[i].blocks|
    requires forall c :: c in calls ==> c.0 < |vs| && !Touches(c, i, lba)
    ensures var end := Run(vs, calls).0;
            lba < |end[i].blocks| && end[i].blocks[lba] == vs[i].blocks[lba]
    decreases |calls|
  {
    if calls == [] {
    } else {
      var (j, op) := calls[0];
      assert !Touches(calls[0], i, lba);
      if j == i {
        StepKeeps(vs[i], op, lba);
      }
      UntouchedBlock(vs[j := Step(vs[j], op).0], calls[1..], i, lba);
    }
  }

  /** Once a volume is locked, no request of a run changes its attribute word. */
  lemma {:induction false} LockedVolume(vs: seq<Volume>, calls: seq<(nat, Op)>, i: nat)
    requires AllShaped(vs) && i < |vs| && FvbAttributes.Locked(vs[i].attributes)
    requires forall c :: c in calls ==> c.0 < |vs|
    ensures Run(vs, calls).0[i].attributes == vs[i].attributes
    decreases |calls|
  {
    if calls == [] {
    } else {
      var (j, op) := calls[0];
      if j == i && op.SetAttributes? {
        FvbAttributes.LockedWord(vs[i].attributes, op.requested);
      }
      LockedVolume(vs[j := Step(vs[j], op).0], calls[1..], i);
    }
  }

  // Runs on a part that may fail.

  predicate NeverNamed(calls: seq<(nat, Op)>, i: nat, lba: nat) {
    forall c :: c in calls ==> !Touches(c, i, lba)
  }

  /** What one request does to its volume even if commands fail: shape, count and attribute word are
      those of the abstract step, and blocks that it does not name keep their contents. */
  ghost predicate Contained(was: Volume, now: Volume, op: Op)
    requires Shaped(was)
  {
    && now.shape == was.shape && now.count == was.count && |now.blocks| == |was.blocks|
    && now.attributes == Step(was, op).0.attributes
    && forall k :: 0 <= k < |was.blocks| && !Names(op, k) ==> now.blocks[k] == was.blocks[k]
  }

  /** The same of a run over several volumes. */
  ghost predicate AllContained(before: seq<Volume>, now: seq<Volume>, calls: seq<(nat, Op)>)
    requires AllShaped(before)
    requires forall c :: c in calls ==> c.0 < |before|
  {
    && |now| == |before|
    && (forall i {:trigger now[i]} :: 0 <= i < |now| ==>
          && now[i].shape == before[i].shape && now[i].count == before[i].count
          && |now[i].blocks| == |before[i].blocks|
          && now[i].attributes == Run(before, calls).0[i].attributes)
    && (forall i, k {:trigger now[i].blocks[k]} ::
          0 <= i < |now| && 0 <= k < |now[i].blocks| && NeverNamed(calls, i, k) ==>
            now[i].blocks[k] == before[i].blocks[k])
  }

  /** A block that no write names by its number and no erase by a range holds what it held. */
  lemma ContainedBlocks(before: seq<Volume>, now: seq<Volume>, calls: seq<(nat, Op)>, i: nat, k: nat)
    requires AllShaped(before) && (forall c :: c in calls ==> c.0 < |before|) && AllContained(before, now, calls)
    requires i < |before| && k < |before[i].blocks|
    requires forall c :: c in calls && c.0 == i && c.1.Write? ==> c.1.lba != k
    requires forall c, r :: c in calls && c.0 == i && c.1.Erase? && r in c.1.ranges ==> !(r.0 <= k < r.0 + r.1)
    ensures |now| == |before| && |now[i].blocks| == |before[i].blocks| && now[i].blocks[k] == before[i].blocks[k]
  {
    hide Run, Shaped;
    assert NeverNamed(calls, i, k);
  }

  lemma NoneContained(before: seq<Volume>)
    requires AllShaped(before)
    ensures AllContained(before, before, [])
  {
    RunNone(before);
  }

  lemma MoreContained(before: seq<Volume>, was: seq<Volume>, now: seq<Volume>, calls: seq<(nat, Op)>,
                      call: (nat, Op))
    requires AllShaped(before) && AllShaped(was)
    requires forall c :: c in calls + [call] ==> c.0 < |before|
    requires forall c :: c in calls ==> c in calls + [call]
    requires AllContained(before, was, calls) && call.0 < |was|
    requires |now| == |was| && now == was[call.0 := now[call.0]] && Contained(was[call.0], now[call.0], call.1)
    ensures AllContained(before, now, calls + [call])
  {
    hide Step, Run, Shaped, Names;
    RunSnoc(before, calls, call);
    RunShapes(before, calls);
    var mid := Run(before, calls).0;
    StepAttributes(was[call.0], mid[call.0], call.1);
    forall i, k | 0 <= i < |now| && 0 <= k < |now[i].blocks| && NeverNamed(calls + [call], i, k)
      ensures now[i].blocks[k] == before[i].blocks[k]
    {
      assert call in calls + [call] && NeverNamed(calls, i, k);
      assert was[i].blocks[k] == before[i].blocks[k];
    }
  }

  lemma RunShapes(vs: seq<Volume>, calls: seq<(nat, Op)>)
    requires AllShaped(vs)
    requires forall c :: c in calls ==> c.0 < |vs|
    ensures AllShaped(Run(vs, calls).0) && |Run(vs, calls).0| == |vs|
  {
  }

  /** The volumes after `n` requests of a run: contained, and exactly those of the abstract run if `exact`. */
  ghost predicate RunSoFar(before: seq<Volume>, now: seq<Volume>, calls: seq<(nat, Op)>, n: nat,
                           replies: seq<Reply>, exact: bool)
    requires AllShaped(before) && n <= |calls|
    requires forall c :: c in calls ==> c.0 < |before|
  {
    && AllContained(before, now, calls[..n])
    && (exact ==> (now, replies) == Run(before, calls[..n]))
  }

  lemma RunBegins(before: seq<Volume>, calls: seq<(nat, Op)>, exact: bool)
    requires AllShaped(before)
    requires forall c :: c in calls ==> c.0 < |before|
    ensures RunSoFar(before, before, calls, 0, [], exact)
  {
    hide AllContained, Run;
    RunNone(before);
    NoneContained(before);
    assert calls[..0] == [];
  }

  lemma RunGoesOn(before: seq<Volume>, was: seq<Volume>, now: seq<Volume>, calls: seq<(nat, Op)>, n: nat,
                  replies: seq<Reply>, reply: Reply, exact: bool)
    requires AllShaped(before) && AllShaped(was) && n < |calls|
    requires forall c :: c in calls ==> c.0 < |before|
    requires RunSoFar(before, was, calls, n, replies, exact)
    requires var (i, op) := calls[n];
             && i < |was| == |now| && now == was[i := now[i]] && Contained(was[i], now[i], op)
             && (exact ==> (now[i], reply) == Step(was[i], op))
    ensures RunSoFar(before, now, calls, n + 1, replies + [reply], exact)
  {
    hide AllContained, Run, Step, Contained, Shaped;
    var call := calls[n];
    assert calls[..n + 1] == calls[..n] + [call];
    RunSnoc(before, calls[..n], call);
    MoreContained(before, was, now, calls[..n], call);
  }

  lemma RunEnds(before: seq<Volume>, now: seq<Volume>, calls: seq<(nat, Op)>, replies: seq<Reply>, exact: bool)
    requires AllShaped(before)
    requires forall c :: c in calls ==> c.0 < |before|
    requires RunSoFar(before, now, calls, |calls|, replies, exact)
    ensures AllContained(before, now, calls) && (exact ==> (now, replies) == Run(before, calls))
  {
    hide AllContained, Run;
    assert calls[..|calls|] == calls;
  }
}
