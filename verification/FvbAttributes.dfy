/** The attribute word of a firmware volume and the requests that may change it (EFI_FVB2_*
    bits of section 3.2.1 of the PI Specification, Volume 3). */
module FvbAttributes {
  import opened Nor

  const READ_DISABLED_CAP: bv32 := 0x0001
  const READ_ENABLED_CAP: bv32 := 0x0002
  const READ_STATUS: bv32 := 0x0004
  const WRITE_DISABLED_CAP: bv32 := 0x0008
  const WRITE_ENABLED_CAP: bv32 := 0x0010
  const WRITE_STATUS: bv32 := 0x0020
  const LOCK_CAP: bv32 := 0x0040
  const LOCK_STATUS: bv32 := 0x0080
  const STICKY_WRITE: bv32 := 0x0200
  const MEMORY_MAPPED: bv32 := 0x0400
  const ERASE_POLARITY: bv32 := 0x0800
  const READ_LOCK_CAP: bv32 := 0x1000
  const WRITE_LOCK_CAP: bv32 := 0x4000
  const ALIGNMENT: bv32 := 0x001F_0000

  /** READ_STATUS | WRITE_STATUS | LOCK_STATUS. */
  const STATUS: bv32 := 0x00A4

  /** Everything but the status bits: 0xFFFFFFFF & ~STATUS. */
  const REST: bv32 := 0xFFFF_FF5B

  /** The enable, disable and lock capability bits. */
  const CAPABILITIES: bv32 := 0x005B

  /** The read-only bits: CAPABILITIES, STICKY_WRITE, MEMORY_MAPPED, ERASE_POLARITY,
      READ_LOCK_CAP, WRITE_LOCK_CAP and ALIGNMENT. */
  const UNCHANGED: bv32 := 0x001F_5E5B

  lemma Masks()
    ensures STATUS == READ_STATUS | WRITE_STATUS | LOCK_STATUS
    ensures REST == 0xFFFF_FFFF & !STATUS
    ensures CAPABILITIES == READ_DISABLED_CAP | READ_ENABLED_CAP | WRITE_DISABLED_CAP
                            | WRITE_ENABLED_CAP | LOCK_CAP
    ensures UNCHANGED == CAPABILITIES | STICKY_WRITE | MEMORY_MAPPED | ERASE_POLARITY
                         | READ_LOCK_CAP | WRITE_LOCK_CAP | ALIGNMENT
  {
  }

  predicate Readable(attributes: bv32) {
    attributes & READ_STATUS != 0
  }

  predicate Writable(attributes: bv32) {
    attributes & WRITE_STATUS != 0
  }

  predicate Locked(attributes: bv32) {
    attributes & LOCK_STATUS != 0
  }

  /** The checks of FvbSetVolumeAttributes, in the driver's order. */
  function Verdict(word: bv32, requested: bv32): Status {
    var oldStatus := word & STATUS;
    var newStatus := requested & STATUS;
    if (word & UNCHANGED) ^ (requested & UNCHANGED) != 0 then InvalidParameter
    else if word & LOCK_STATUS != 0 && oldStatus ^ newStatus != 0 then AccessDenied
    else if Allows(word & CAPABILITIES, newStatus) then Success
    else InvalidParameter
  }

  /** The capability checks, one status bit and polarity after the other. */
  predicate Allows(caps: bv32, newStatus: bv32) {
    && !(caps & READ_DISABLED_CAP == 0 && newStatus & READ_STATUS == 0)
    && !(caps & READ_ENABLED_CAP == 0 && newStatus & READ_STATUS != 0)
    && !(caps & WRITE_DISABLED_CAP == 0 && newStatus & WRITE_STATUS == 0)
    && !(caps & WRITE_ENABLED_CAP == 0 && newStatus & WRITE_STATUS != 0)
    && !(caps & LOCK_CAP == 0 && newStatus & LOCK_STATUS != 0)
  }

  function Merged(word: bv32, requested: bv32): bv32 {
    (word & REST) | (requested & STATUS)
  }

  /** FvbSetVolumeAttributes: the attribute word after a request. Accepted or not, a request moves
      no bit outside the three status bits. */
  function SetAttributes(word: bv32, requested: bv32): (r: bv32)
    ensures r & REST == word & REST
  {
    if Verdict(word, requested) == Success then
      MergedRest(word, requested);
      Merged(word, requested)
    else word
  }

  /** Each status bit is in a state that the capability bits allow. */
  predicate RespectsCapabilities(a: bv32) {
    && (if Readable(a) then a & READ_ENABLED_CAP != 0 else a & READ_DISABLED_CAP != 0)
    && (if Writable(a) then a & WRITE_ENABLED_CAP != 0 else a & WRITE_DISABLED_CAP != 0)
    && (Locked(a) ==> a & LOCK_CAP != 0)
  }

  /** The bits of the word, by their values. */
  lemma BitValues()
    ensures READ_DISABLED_CAP == 0x01 && READ_ENABLED_CAP == 0x02 && READ_STATUS == 0x04
    ensures WRITE_DISABLED_CAP == 0x08 && WRITE_ENABLED_CAP == 0x10 && WRITE_STATUS == 0x20
    ensures LOCK_CAP == 0x40 && LOCK_STATUS == 0x80
    ensures STICKY_WRITE == 0x200 && MEMORY_MAPPED == 0x400 && ERASE_POLARITY == 0x800
    ensures READ_LOCK_CAP == 0x1000 && WRITE_LOCK_CAP == 0x4000 && ALIGNMENT == 0x1F_0000
  {
  }

  predicate Bit(a: bv32, n: bv5) {
    a & (1 << n) != 0
  }

  // Readable, writable and locked are bits 2, 5 and 7 of the word.

  lemma ReadBit(a: bv32)
    ensures Readable(a) == Bit(a, 2)
  {
    assert READ_STATUS == 1 << 2;
  }

  lemma WriteBit(a: bv32)
    ensures Writable(a) == Bit(a, 5)
  {
    assert WRITE_STATUS == 1 << 5;
  }

  lemma LockBit(a: bv32)
    ensures Locked(a) == Bit(a, 7)
  {
    assert LOCK_STATUS == 1 << 7;
  }

  /** What each status needs: bit 1 to be readable and bit 0 not to be, bit 4 to be writable and bit 3 not to
      be, bit 6 to be locked. */
  lemma CapabilityBits(a: bv32)
    ensures RespectsCapabilities(a) <==>
              && (if Readable(a) then a & 0x02 != 0 else a & 0x01 != 0)
              && (if Writable(a) then a & 0x10 != 0 else a & 0x08 != 0)
              && (Locked(a) ==> a & 0x40 != 0)
  {
    hide Readable, Writable, Locked;
  }

  lemma XorZero(x: bv32, y: bv32)
    ensures x ^ y != 0 <==> x != y
  {
  }

  /** Words that agree on the read-only bits agree on each capability bit. */
  lemma SameCapabilities(a: bv32, b: bv32)
    requires a & UNCHANGED == b & UNCHANGED
    ensures (a & CAPABILITIES) & READ_DISABLED_CAP == b & READ_DISABLED_CAP
    ensures (a & CAPABILITIES) & READ_ENABLED_CAP == b & READ_ENABLED_CAP
    ensures (a & CAPABILITIES) & WRITE_DISABLED_CAP == b & WRITE_DISABLED_CAP
    ensures (a & CAPABILITIES) & WRITE_ENABLED_CAP == b & WRITE_ENABLED_CAP
    ensures (a & CAPABILITIES) & LOCK_CAP == b & LOCK_CAP
  {
  }

  lemma StatusBits(a: bv32)
    ensures (a & STATUS) & READ_STATUS == a & READ_STATUS
    ensures (a & STATUS) & WRITE_STATUS == a & WRITE_STATUS
    ensures (a & STATUS) & LOCK_STATUS == a & LOCK_STATUS
  {
  }

  lemma MergedRest(word: bv32, requested: bv32)
    ensures Merged(word, requested) & REST == word & REST
  {
  }

  /** Exactly which requests are accepted: the ones whose read-only bits match, whose status the
      capabilities allow, and which do not move a status bit of a locked volume. */
  lemma AcceptedExactly(word: bv32, requested: bv32)
    ensures Verdict(word, requested) == Success <==>
              && requested & UNCHANGED == word & UNCHANGED
              && RespectsCapabilities(requested)
              && (Locked(word) ==> requested & STATUS == word & STATUS)
  {
    XorZero(word & UNCHANGED, requested & UNCHANGED);
    XorZero(word & STATUS, requested & STATUS);
    StatusBits(requested);
    if requested & UNCHANGED == word & UNCHANGED {
      SameCapabilities(word, requested);
    }
  }

  lemma MismatchedIsInvalid(word: bv32, requested: bv32)
    requires requested & UNCHANGED != word & UNCHANGED
    ensures Verdict(word, requested) == InvalidParameter
  {
  }

  lemma MatchedIsDenied(word: bv32, requested: bv32)
    requires requested & UNCHANGED == word & UNCHANGED
    ensures Verdict(word, requested) == AccessDenied <==>
              Locked(word) && requested & STATUS != word & STATUS
  {
  }

  /** Exactly which requests are denied: the read-only bits match, but a locked volume would have to
      move a status bit. */
  lemma DeniedExactly(word: bv32, requested: bv32)
    ensures Verdict(word, requested) == AccessDenied <==>
              && requested & UNCHANGED == word & UNCHANGED
              && Locked(word)
              && requested & STATUS != word & STATUS
  {
    if requested & UNCHANGED == word & UNCHANGED {
      MatchedIsDenied(word, requested);
    } else {
      MismatchedIsInvalid(word, requested);
    }
  }

  /** An accepted request takes over the requested status bits and ends in a state that the
      capability bits allow. */
  lemma AcceptedWord(word: bv32, requested: bv32)
    requires Verdict(word, requested) == Success
    ensures SetAttributes(word, requested) & STATUS == requested & STATUS
    ensures RespectsCapabilities(SetAttributes(word, requested))
  {
  }

  /** The read-only bits of the request are those of the word. */
  predicate Matches(word: bv32, requested: bv32) {
    requested & UNCHANGED == word & UNCHANGED
  }

  /** The request changes a status bit. */
  predicate Moves(word: bv32, requested: bv32) {
    requested & STATUS != word & STATUS
  }

  /** Verdict and new word of every request. */
  lemma Outcome(word: bv32, requested: bv32)
    ensures Verdict(word, requested) == AccessDenied <==>
              Matches(word, requested) && Locked(word) && Moves(word, requested)
    ensures Verdict(word, requested) == Success <==>
              && Matches(word, requested) && RespectsCapabilities(requested)
              && !(Locked(word) && Moves(word, requested))
    ensures Verdict(word, requested) in {Success, AccessDenied, InvalidParameter}
    ensures if Verdict(word, requested) == Success then !Moves(SetAttributes(word, requested), requested)
            else SetAttributes(word, requested) == word
  {
    hide Verdict, SetAttributes, RespectsCapabilities, Locked;
    AcceptedExactly(word, requested);
    DeniedExactly(word, requested);
    if Verdict(word, requested) == Success {
      AcceptedWord(word, requested);
    } else {
      RefusedWord(word, requested);
    }
  }

  /** A refused request is denied or invalid, and leaves the word alone. */
  lemma RefusedWord(word: bv32, requested: bv32)
    requires Verdict(word, requested) != Success
    ensures SetAttributes(word, requested) == word && Verdict(word, requested) in {AccessDenied, InvalidParameter}
  {
    hide Allows, Merged;
  }

  /** No request moves a locked word. */
  lemma LockedWord(word: bv32, requested: bv32)
    requires Locked(word)
    ensures SetAttributes(word, requested) == word
  {
  }

  /** A run of requests against one volume; over any run only the three status bits move. */
  function AttributesAfter(a: bv32, requests: seq<bv32>): (r: bv32)
    ensures r & REST == a & REST
    decreases |requests|
  {
    if requests == [] then a else AttributesAfter(SetAttributes(a, requests[0]), requests[1..])
  }

  /** A run that has moved the word at all ends in a state that the capabilities allow. */
  lemma {:induction false} RunRespectsCapabilities(a: bv32, requests: seq<bv32>)
    ensures var z := AttributesAfter(a, requests); z == a || RespectsCapabilities(z)
    decreases |requests|
  {
    if requests == [] {
    } else {
      var b := SetAttributes(a, requests[0]);
      assert b == a || RespectsCapabilities(b) by {
        if Verdict(a, requests[0]) == Success {
          AcceptedWord(a, requests[0]);
        }
      }
      RunRespectsCapabilities(b, requests[1..]);
    }
  }

  /** Once LOCK_STATUS is set at some point of a run, the word never changes again. */
  lemma {:induction false} LockIsPermanent(a: bv32, before: seq<bv32>, after: seq<bv32>)
    requires Locked(AttributesAfter(a, before))
    ensures AttributesAfter(a, before + after) == AttributesAfter(a, before)
    decreases |before|, |after|
  {
    if before != [] {
      assert (before + after)[0] == before[0] && (before + after)[1..] == before[1..] + after;
      LockIsPermanent(SetAttributes(a, before[0]), before[1..], after);
    } else if after != [] {
      assert before + after == after;
      LockedWord(a, after[0]);
      LockIsPermanent(a, [], after[1..]);
      assert [] + after[1..] == after[1..];
    } else {
      assert before + after == [];
    }
  }
}
