/** The Multiple APIC Description Table (section 5.2.12 of the ACPI Specification 5.0): ordering of
    the logical processors, table layout and checksum. */
module Madt {
  import opened Bytes

  const MAX_CPUS: nat := 64

  /** What the MP services report for one logical processor. */
  datatype Cpu = Cpu(apicId: bv8, secondary: bool)

  /** Secondary processors are marked with the top bit, so that sorting puts them behind. */
  function Tagged(c: Cpu): bv8 {
    if c.secondary then c.apicId | 0x80 else c.apicId
  }

  function Untagged(x: bv8): bv8 {
    x & 0x7F
  }

  predicate Ascending(s: seq<bv8>) {
    forall i, j :: 0 <= i < j < |s| ==> s[i] <= s[j]
  }

  predicate SmallIds(cpus: seq<Cpu>) {
    forall c :: c in cpus ==> c.apicId < 0x80
  }

  function Untag(s: seq<bv8>): (r: seq<bv8>)
    ensures |r| == |s| && forall i {:trigger r[i]} :: 0 <= i < |s| ==> r[i] == Untagged(s[i])
  {
    if s == [] then [] else [Untagged(s[0])] + Untag(s[1..])
  }

  function Tags(cpus: seq<Cpu>): (r: seq<bv8>)
    ensures |r| == |cpus| && forall i {:trigger r[i]} :: 0 <= i < |r| ==> r[i] == Tagged(cpus[i])
  {
    if cpus == [] then [] else [Tagged(cpus[0])] + Tags(cpus[1..])
  }

  /** The APIC ids of the primary, or of the secondary, processors in the order reported. */
  function Ids(cpus: seq<Cpu>, secondary: bool): seq<bv8> {
    if cpus == [] then []
    else
      var rest := Ids(cpus[1..], secondary);
      if cpus[0].secondary == secondary then [cpus[0].apicId] + rest else rest
  }

  ghost predicate Permutation(a: seq<bv8>, b: seq<bv8>) {
    multiset(a) == multiset(b)
  }

  function Swapped(s: seq<bv8>, i: nat, j: nat): (r: seq<bv8>)
    requires i < j < |s|
    ensures |r| == |s|
  {
    s[i := s[j]][j := s[i]]
  }

  lemma SwapPermutes(s: seq<bv8>, i: nat, j: nat)
    requires i < j < |s|
    ensures Permutation(s, Swapped(s, i, j))
  {
  }

  /** Every entry before `i` is at most every later entry. */
  ghost predicate Settled(s: seq<bv8>, i: nat) {
    forall x, y :: 0 <= x < i && x < y < |s| ==> s[x] <= s[y]
  }

  /** Entry `i` is at most the entries between it and `j`. */
  ghost predicate LeastUpTo(s: seq<bv8>, i: nat, j: nat) {
    i < |s| && forall y :: i < y < j && y < |s| ==> s[i] <= s[y]
  }

  /** One comparison of the sort: after it, entry `i` is also at most entry `j`. */
  lemma ExchangeStep(s: seq<bv8>, i: nat, j: nat)
    requires i < j < |s| && Settled(s, i) && LeastUpTo(s, i, j)
    ensures var t := if s[i] > s[j] then Swapped(s, i, j) else s;
            Settled(t, i) && LeastUpTo(t, i, j + 1)
  {
  }

  lemma RoundEnds(s: seq<bv8>, i: nat)
    requires Settled(s, i) && LeastUpTo(s, i, |s|)
    ensures Settled(s, i + 1)
  {
  }

  lemma SettledIsAscending(s: seq<bv8>, i: nat)
    requires Settled(s, i) && |s| <= i + 1
    ensures Ascending(s)
  {
  }

  function Xor(x: bv8, y: bv8): bv8 {
    x ^ y
  }

  /** The values that the three XOR assignments go through. */
  lemma XorLaws(x: bv8, y: bv8)
    ensures Xor(x, Xor(y, x)) == y && Xor(Xor(y, x), y) == x
  {
  }

  /** The three XOR assignments of the sort. */
  method XorSwap(a: array<bv8>, i: nat, j: nat)
    requires i < j < a.Length
    modifies a
    ensures a[..] == Swapped(old(a[..]), i, j)
  {
    hide Xor;
    XorLaws(a[i], a[j]);
    a[j] := Xor(a[j], a[i]);
    a[i] := Xor(a[i], a[j]);
    a[j] := Xor(a[j], a[i]);
  }

  /** The exchange sort, in place. */
  method Sort(a: array<bv8>)
    modifies a
    ensures Ascending(a[..]) && Permutation(old(a[..]), a[..])
  {
    hide Settled, LeastUpTo, Swapped, Ascending;
    var n := a.Length;
    var i := 0;
    SortBegins(a[..]);
    while i + 1 < n
      invariant 0 <= i && (i < n || n == 0)
      invariant Permutation(old(a[..]), a[..]) && Settled(a[..], i)
    {
      var j := i + 1;
      RoundBegins(a[..], i);
      while j < n
        invariant i < j <= n
        invariant Permutation(old(a[..]), a[..]) && Settled(a[..], i) && LeastUpTo(a[..], i, j)
      {
        ExchangeStep(a[..], i, j);
        SwapPermutes(a[..], i, j);
        if a[i] > a[j] {
          XorSwap(a, i, j);
        }
        j := j + 1;
      }
      RoundEnds(a[..], i);
      i := i + 1;
    }
    SettledIsAscending(a[..], i);
  }

  lemma SortBegins(s: seq<bv8>)
    ensures Settled(s, 0)
  {
  }

  lemma RoundBegins(s: seq<bv8>, i: nat)
    requires i < |s|
    ensures LeastUpTo(s, i, i + 1)
  {
  }

  // Which order the sort produces.

  /** The entries with a clear (`top` false) or a set top bit, in order. */
  function Part(s: seq<bv8>, top: bool): seq<bv8> {
    if s == [] then []
    else
      var rest := Part(s[1..], top);
      if (s[0] >= 0x80) == top then [s[0]] + rest else rest
  }

  lemma TagLaws(c: Cpu)
    requires c.apicId < 0x80
    ensures (Tagged(c) >= 0x80) == c.secondary && Untagged(Tagged(c)) == c.apicId
  {
  }

  lemma {:induction false} PartsOfTags(cpus: seq<Cpu>, top: bool)
    requires SmallIds(cpus)
    ensures Untag(Part(Tags(cpus), top)) == Ids(cpus, top)
  {
    hide Tagged, Untagged;
    if cpus == [] {
    } else {
      TagLaws(cpus[0]);
      PartsOfTags(cpus[1..], top);
      var tags := Tags(cpus);
      assert tags[0] == Tagged(cpus[0]) && tags[1..] == Tags(cpus[1..]);
      var rest := Part(tags[1..], top);
      if cpus[0].secondary == top {
        assert ([tags[0]] + rest)[1..] == rest;
      }
    }
  }

  /** Permutations have the same entries. */
  lemma FindIn(s: seq<bv8>, t: seq<bv8>, x: bv8) returns (i: nat)
    requires x in s && Permutation(s, t)
    ensures i < |t| && t[i] == x
  {
    assert x in multiset(t);
    i :| 0 <= i < |t| && t[i] == x;
  }

  /** Taking matching entries out of two permutations leaves permutations. */
  lemma TakeOut(s: seq<bv8>, t: seq<bv8>) returns (i: nat)
    requires s != [] && Permutation(s, t)
    ensures i < |t| && t[i] == s[0] && Permutation(s[1..], t[..i] + t[i + 1..])
  {
    i := FindIn(s, t, s[0]);
    WithoutFirst(s);
    Without(t, i);
  }

  lemma WithoutFirst(s: seq<bv8>)
    requires s != []
    ensures multiset(s[1..]) == multiset(s) - multiset{s[0]}
  {
    assert s == [s[0]] + s[1..];
  }

  lemma Without(t: seq<bv8>, i: nat)
    requires i < |t|
    ensures multiset(t[..i] + t[i + 1..]) == multiset(t) - multiset{t[i]}
  {
    assert t == t[..i] + [t[i]] + t[i + 1..];
  }

  lemma {:induction false} PartConcat(s: seq<bv8>, t: seq<bv8>, top: bool)
    ensures Part(s + t, top) == Part(s, top) + Part(t, top)
  {
    if s == [] {
      assert s + t == t;
    } else {
      PartConcat(s[1..], t, top);
      assert (s + t)[0] == s[0] && (s + t)[1..] == s[1..] + t;
      assert [s[0]] + (Part(s[1..], top) + Part(t, top)) == ([s[0]] + Part(s[1..], top)) + Part(t, top);
    }
  }

  lemma PutBack(s: seq<bv8>, a: seq<bv8>, b: seq<bv8>, x: bv8)
    requires Permutation(s, a + b)
    ensures Permutation([x] + s, a + [x] + b)
  {
  }

  lemma PartInsert(a: seq<bv8>, x: bv8, b: seq<bv8>, top: bool)
    ensures Part(a + b, top) == Part(a, top) + Part(b, top)
    ensures Part(a + [x] + b, top)
         == if (x >= 0x80) == top then Part(a, top) + [x] + Part(b, top) else Part(a, top) + Part(b, top)
  {
    PartConcat(a, b, top);
    PartConcat(a, [x], top);
    PartConcat(a + [x], b, top);
    assert Part([x], top) == if (x >= 0x80) == top then [x] else [];
    assert Part(a, top) + [] == Part(a, top);
  }

  lemma {:induction false} PartPermutes(s: seq<bv8>, t: seq<bv8>, top: bool)
    requires Permutation(s, t)
    ensures Permutation(Part(s, top), Part(t, top))
  {
    hide Permutation;
    if s == [] {
      SameSize(s, t);
    } else {
      var i := TakeOut(s, t);
      var a, b := t[..i], t[i + 1..];
      assert t == a + [t[i]] + b;
      PartPermutes(s[1..], a + b, top);
      PartInsert(a, t[i], b, top);
      if (s[0] >= 0x80) == top {
        PutBack(Part(s[1..], top), Part(a, top), Part(b, top), t[i]);
      }
    }
  }

  lemma UntagConcat(s: seq<bv8>, t: seq<bv8>)
    ensures Untag(s + t) == Untag(s) + Untag(t)
  {
  }

  lemma UntagInsert(a: seq<bv8>, x: bv8, b: seq<bv8>)
    ensures Untag(a + b) == Untag(a) + Untag(b)
    ensures Untag(a + [x] + b) == Untag(a) + [Untagged(x)] + Untag(b)
  {
    hide Untagged;
    UntagConcat(a, b);
    UntagConcat(a, [x]);
    UntagConcat(a + [x], b);
  }

  lemma UntagFirst(s: seq<bv8>)
    requires s != []
    ensures Untag(s) == [Untagged(s[0])] + Untag(s[1..])
  {
    hide Untagged;
  }

  lemma {:induction false} UntagPermutes(s: seq<bv8>, t: seq<bv8>)
    requires Permutation(s, t)
    ensures Permutation(Untag(s), Untag(t))
  {
    hide Untagged, Untag, Permutation;
    if s == [] {
      SameSize(s, t);
    } else {
      var i := TakeOut(s, t);
      var a, b := t[..i], t[i + 1..];
      UntagPermutes(s[1..], a + b);
      UntagInsert(a, t[i], b);
      UntagFirst(s);
      PutBack(Untag(s[1..]), Untag(a), Untag(b), Untagged(t[i]));
      assert t == a + [t[i]] + b;
    }
  }

  predicate AllBelow(s: seq<bv8>) {
    forall i :: 0 <= i < |s| ==> s[i] < 0x80
  }

  predicate AllAbove(s: seq<bv8>) {
    forall i :: 0 <= i < |s| ==> s[i] >= 0x80
  }

  lemma {:induction false} AllTop(t: seq<bv8>)
    requires AllAbove(t)
    ensures Part(t, false) == [] && Part(t, true) == t
  {
    if t == [] {
    } else {
      AllTop(t[1..]);
    }
  }

  /** An ascending list is its untagged part followed by its tagged part. */
  lemma {:induction false} AscendingSplits(t: seq<bv8>)
    requires Ascending(t)
    ensures t == Part(t, false) + Part(t, true)
    ensures AllBelow(Part(t, false)) && AllAbove(Part(t, true))
  {
    if t == [] {
    } else {
      if t[0] >= 0x80 {
        AllTop(t);
      } else {
        AscendingSplits(t[1..]);
        assert t == [t[0]] + (Part(t[1..], false) + Part(t[1..], true));
      }
    }
  }

  lemma PartsAscend(low: seq<bv8>, high: seq<bv8>)
    requires Ascending(low + high)
    ensures Ascending(low) && Ascending(high)
  {
    forall i, j | 0 <= i < j < |high| ensures high[i] <= high[j] {
      assert (low + high)[|low| + i] <= (low + high)[|low| + j];
    }
    forall i, j | 0 <= i < j < |low| ensures low[i] <= low[j] {
      assert (low + high)[i] <= (low + high)[j];
    }
  }

  lemma UntagAscending(s: seq<bv8>)
    requires Ascending(s) && (AllBelow(s) || AllAbove(s))
    ensures Ascending(Untag(s))
  {
  }

  /** Sorting the tagged ids and dropping the tags lists all primary processors before all secondary
      ones, each group complete and in ascending order. */
  lemma PrimariesFirst(cpus: seq<Cpu>, sorted: seq<bv8>)
    requires SmallIds(cpus) && Permutation(Tags(cpus), sorted) && Ascending(sorted)
    ensures var ids, primaries := Untag(sorted), Ids(cpus, false);
            && |primaries| <= |ids| == |cpus|
            && Permutation(ids[..|primaries|], primaries) && Ascending(ids[..|primaries|])
            && Permutation(ids[|primaries|..], Ids(cpus, true)) && Ascending(ids[|primaries|..])
  {
    var low, high := Part(sorted, false), Part(sorted, true);
    AscendingSplits(sorted);
    UntagConcat(low, high);
    PartsAscend(low, high);
    UntagAscending(low);
    UntagAscending(high);
    PartPermutes(Tags(cpus), sorted, false);
    PartPermutes(Tags(cpus), sorted, true);
    UntagPermutes(Part(Tags(cpus), false), low);
    UntagPermutes(Part(Tags(cpus), true), high);
    PartsOfTags(cpus, false);
    PartsOfTags(cpus, true);
    SameSize(Untag(low), Ids(cpus, false));
    SameSize(Tags(cpus), sorted);
    assert Untag(sorted)[..|low|] == Untag(low) && Untag(sorted)[|low|..] == Untag(high);
  }

  lemma SameSize(s: seq<bv8>, t: seq<bv8>)
    requires Permutation(s, t)
    ensures |s| == |t| && (s == t || s != [])
  {
    assert |multiset(s)| == |s| && |multiset(t)| == |t|;
  }

  // The table.

  const TABLE_HEADER: nat := 44
  const CHECKSUM_AT: nat := 9
  const FIXED_SIZE: nat := 82
  const LOCAL_SIZE: nat := 8

  const LOCAL_APIC: byte := 0
  const IO_APIC: byte := 1
  const SOURCE_OVERRIDE: byte := 2
  const LOCAL_NMI: byte := 4

  function TableLength(n: nat): nat {
    FIXED_SIZE + LOCAL_SIZE * n
  }

  /** OEM id, OEM table id and revision, creator id and revision, local APIC address, flags. */
  const HEADER_TAIL: seq<byte> :=
    [0x41, 0x4C, 0x54, 0x45, 0x4C, 0x4C, 0, 0, 0, 0, 0, 0, 0, 0, 0, 0, 0, 0,
     0x41, 0x4C, 0x54, 0x20, 0, 0, 0, 0, 0, 0, 0xE0, 0xFE, 1, 0, 0, 0]

  /** resMADHdr with its length filled in: "APIC", revision 3, OEM "ALTELL", creator "ALT ", local
      APICs at 0xFEE00000, dual-8259 compatible. */
  function Header(length: nat): (r: seq<byte>)
    ensures |r| == TABLE_HEADER && r[CHECKSUM_AT] == 0 && r[4..8] == Le(length, 4)
  {
    [0x41, 0x50, 0x49, 0x43] + Le(length, 4) + [3, 0] + HEADER_TAIL
  }

  function IoApic(): (r: seq<byte>)
    ensures |r| == 12 && r[0] == IO_APIC && r[1] == 12
  {
    [IO_APIC, 12, 2, 0, 0, 0, 0xC0, 0xFE, 0, 0, 0, 0]
  }

  function Override(source: byte, interrupt: byte, flags: byte): (r: seq<byte>)
    ensures |r| == 10 && r[0] == SOURCE_OVERRIDE && r[1] == 10
  {
    [SOURCE_OVERRIDE, 10, 0, source, interrupt, 0, 0, 0, flags, 0]
  }

  function Nmi(): (r: seq<byte>)
    ensures |r| == 6 && r[0] == LOCAL_NMI && r[1] == 6
  {
    [LOCAL_NMI, 6, 0xFF, 5, 0, 1]
  }

  /** A processor entry, enabled. */
  function Local(processor: byte, id: bv8): (r: seq<byte>)
    ensures |r| == LOCAL_SIZE && r[0] == LOCAL_APIC && r[1] == 8 && r[2] == processor && r[3] == id as byte
  {
    [LOCAL_APIC, 8, processor, id as byte, 1, 0, 0, 0]
  }

  /** Entries for the first `n` ids, with processor ids counted from 1. */
  function Locals(ids: seq<bv8>, n: nat): (r: seq<byte>)
    requires n <= |ids| <= MAX_CPUS
    ensures |r| == LOCAL_SIZE * n
  {
    if n == 0 then [] else Locals(ids, n - 1) + Local(n, ids[n - 1])
  }

  function Fixed(n: nat): (r: seq<byte>)
    ensures |r| == FIXED_SIZE
  {
    Header(TableLength(n)) + IoApic() + Override(0, 2, 0) + Override(9, 9, 0x0D) + Nmi()
  }

  /** The table before its checksum is known. */
  function Unsummed(ids: seq<bv8>): (r: seq<byte>)
    requires |ids| <= MAX_CPUS
    ensures |r| == TableLength(|ids|) && r[CHECKSUM_AT] == 0
  {
    Fixed(|ids|) + Locals(ids, |ids|)
  }

  /** The checksum expression, cast to a byte. */
  function Negative(sum: int): byte {
    (0xFF - sum + 1) % 256
  }

  function Table(ids: seq<bv8>): (r: seq<byte>)
    requires |ids| <= MAX_CPUS
    ensures |r| == TableLength(|ids|)
  {
    var t := Unsummed(ids);
    t[CHECKSUM_AT := Negative(ByteSum(t, |t|))]
  }

  lemma Complement(sum: nat)
    ensures (sum + Negative(sum) as int) % 256 == 0
  {
  }

  /** The bytes of the table sum to zero modulo 256. */
  lemma TableSumsToZero(ids: seq<bv8>)
    requires |ids| <= MAX_CPUS
    ensures ByteSum(Table(ids), TableLength(|ids|)) % 256 == 0
  {
    hide Unsummed;
    var t := Unsummed(ids);
    var sum := ByteSum(t, |t|);
    SumUpdate(t, CHECKSUM_AT, Negative(sum), |t|);
    Complement(sum);
  }

  /** The types of the structures met when walking from `at` by their own length fields; None if a
      length field is too short or leads past the end. */
  function Walk(t: seq<byte>, at: nat): Option<seq<byte>>
    decreases |t| - at
  {
    if at == |t| then Some([])
    else if at + 2 > |t| || t[at + 1] < 2 || at + t[at + 1] as int > |t| then None
    else match Walk(t, at + t[at + 1] as int)
      case None => None
      case Some(rest) => Some([t[at]] + rest)
  }

  lemma {:induction false} LocalAt(ids: seq<bv8>, n: nat, k: nat)
    requires k < n <= |ids| <= MAX_CPUS
    ensures Locals(ids, n)[LOCAL_SIZE * k..LOCAL_SIZE * (k + 1)] == Local(k + 1, ids[k])
  {
    hide Local;
    if k + 1 == n {
    } else {
      LocalAt(ids, n - 1, k);
      assert Locals(ids, n)[..LOCAL_SIZE * (n - 1)] == Locals(ids, n - 1);
      assert Locals(ids, n)[LOCAL_SIZE * k..LOCAL_SIZE * (k + 1)]
          == Locals(ids, n - 1)[LOCAL_SIZE * k..LOCAL_SIZE * (k + 1)];
    }
  }

  /** Behind the byte in which they differ, a table and its front have the same fields. */
  lemma FrontWindow(t: seq<byte>, front: seq<byte>, at: nat, lo: nat, hi: nat)
    requires at < lo <= hi <= |front| <= |t| && t[..|front|] == front[at := t[at]]
    ensures t[lo..hi] == front[lo..hi]
  {
    forall i | lo <= i < hi ensures t[i] == front[i] {
      assert t[i] == t[..|front|][i];
    }
  }

  /** The fixed structures, byte by byte: the header of an "APIC" table of revision 3 by "ALTELL" with
      local APICs at 0xFEE00000 and flag 1, I/O APIC 2 at 0xFEC00000 from interrupt 0 on, the overrides of
      source 0 to interrupt 2 and of source 9 to interrupt 9 with flags 0x0D, and an NMI of all processors
      at LINT 1 with flags 5. */
  lemma FixedFields(ids: seq<bv8>)
    requires |ids| <= MAX_CPUS
    ensures var t := Table(ids);
            && t[0..4] == [0x41, 0x50, 0x49, 0x43] && t[8] == 3
            && t[10..36] == [0x41, 0x4C, 0x54, 0x45, 0x4C, 0x4C, 0, 0, 0, 0, 0, 0, 0, 0, 0, 0, 0, 0,
                             0x41, 0x4C, 0x54, 0x20, 0, 0, 0, 0]
            && FromLe(t[36..40]) == 0xFEE0_0000 && FromLe(t[40..44]) == 1
            && t[44..48] == [1, 12, 2, 0] && FromLe(t[48..52]) == 0xFEC0_0000 && FromLe(t[52..56]) == 0
            && t[56..60] == [2, 10, 0, 0] && FromLe(t[60..64]) == 2 && FromLe(t[64..66]) == 0
            && t[66..70] == [2, 10, 0, 9] && FromLe(t[70..74]) == 9 && FromLe(t[74..76]) == 0x0D
            && t[76..79] == [4, 6, 0xFF] && FromLe(t[79..81]) == 5 && t[81] == 1
  {
    hide FromLe, Table;
    TableFront(ids);
    var f, t := Fixed(|ids|), Table(ids);
    FixedBytes(|ids|);
    forall lo, hi | 10 <= lo <= hi <= FIXED_SIZE ensures t[lo..hi] == f[lo..hi] {
      FrontWindow(t, f, CHECKSUM_AT, lo, hi);
    }
    LittleEndian(0, 0, 0xE0, 0xFE);
    LittleEndian(1, 0, 0, 0);
    LittleEndian(0, 0, 0xC0, 0xFE);
    LittleEndian(0, 0, 0, 0);
    LittleEndian(2, 0, 0, 0);
    LittleEndian(9, 0, 0, 0);
    LittleEndian(0x0D, 0, 0, 0);
    LittleEndian(5, 0, 0, 0);
  }

  /** Outside its checksum byte, the front of the table is the fixed part. */
  lemma TableFront(ids: seq<bv8>)
    requires |ids| <= MAX_CPUS
    ensures var (t, f) := (Table(ids), Fixed(|ids|));
            && t[0..4] == f[0..4] && t[8] == f[8] && |t| >= FIXED_SIZE
            && t[..FIXED_SIZE] == f[CHECKSUM_AT := t[CHECKSUM_AT]]
  {
    hide Fixed, ByteSum, Negative;
  }

  lemma FixedBytes(n: nat)
    ensures var f := Fixed(n);
            && f[0..4] == [0x41, 0x50, 0x49, 0x43] && f[8] == 3
            && f[10..36] == [0x41, 0x4C, 0x54, 0x45, 0x4C, 0x4C, 0, 0, 0, 0, 0, 0, 0, 0, 0, 0, 0, 0,
                             0x41, 0x4C, 0x54, 0x20, 0, 0, 0, 0]
            && f[36..40] == [0, 0, 0xE0, 0xFE] && f[40..44] == [1, 0, 0, 0]
            && f[44..48] == [1, 12, 2, 0] && f[48..52] == [0, 0, 0xC0, 0xFE] && f[52..56] == [0, 0, 0, 0]
            && f[56..60] == [2, 10, 0, 0] && f[60..64] == [2, 0, 0, 0] && f[64..66] == [0, 0]
            && f[66..70] == [2, 10, 0, 9] && f[70..74] == [9, 0, 0, 0] && f[74..76] == [0x0D, 0]
            && f[76..79] == [4, 6, 0xFF] && f[79..81] == [5, 0] && f[81] == 1
  {
    hide Le;
  }

  lemma LocalBytes(processor: byte, id: bv8)
    ensures Local(processor, id) == [0, 8, processor, id as byte, 1, 0, 0, 0]
  {
  }

  /** Processor entry `k` of the table carries processor id k + 1 and APIC id `k`, and is enabled. */
  lemma TableEntry(ids: seq<bv8>, k: nat)
    requires k < |ids| <= MAX_CPUS
    ensures var (t, at) := (Table(ids), FIXED_SIZE + LOCAL_SIZE * k);
            && at + LOCAL_SIZE <= |t| && t[at..at + LOCAL_SIZE] == Local(k + 1, ids[k])
            && t[at..at + LOCAL_SIZE] == [0, 8, k + 1, ids[k] as byte, 1, 0, 0, 0]
  {
    hide Local, Fixed, ByteSum;
    LocalBytes(k + 1, ids[k]);
    var t, at := Table(ids), FIXED_SIZE + LOCAL_SIZE * k;
    LocalAt(ids, |ids|, k);
    assert t[FIXED_SIZE..] == Locals(ids, |ids|);
    assert t[at..at + LOCAL_SIZE] == t[FIXED_SIZE..][LOCAL_SIZE * k..LOCAL_SIZE * (k + 1)];
  }

  lemma {:induction false} WalkLocals(ids: seq<bv8>, k: nat)
    requires k <= |ids| <= MAX_CPUS
    ensures Walk(Table(ids), FIXED_SIZE + LOCAL_SIZE * k) == Some(seq(|ids| - k, _ => LOCAL_APIC))
    decreases |ids| - k
  {
    hide Table;
    if k < |ids| {
      WalkLocals(ids, k + 1);
      TableEntry(ids, k);
      var (t, at) := (Table(ids), FIXED_SIZE + LOCAL_SIZE * k);
      assert t[at] == t[at..at + LOCAL_SIZE][0] && t[at + 1] == t[at..at + LOCAL_SIZE][1];
      assert [LOCAL_APIC] + seq(|ids| - k - 1, _ => LOCAL_APIC) == seq(|ids| - k, _ => LOCAL_APIC);
    } else {
      var none: seq<byte> := seq(0, _ => LOCAL_APIC);
      assert none == [];
    }
  }

  lemma FixedParts(ids: seq<bv8>)
    requires |ids| <= MAX_CPUS
    ensures var t := Table(ids);
            && t[4..8] == Le(TableLength(|ids|), 4)
            && t[44] == IO_APIC && t[45] == 12
            && t[56] == SOURCE_OVERRIDE && t[57] == 10
            && t[66] == SOURCE_OVERRIDE && t[67] == 10
            && t[76] == LOCAL_NMI && t[77] == 6
  {
  }

  /** Walking the structures behind the header by their own lengths ends exactly at the end of the
      table, which is what the header's length field says, and meets one I/O APIC, two overrides, one
      NMI and one entry for each processor. */
  lemma WalkEndsAtLength(ids: seq<bv8>)
    requires |ids| <= MAX_CPUS
    ensures var t := Table(ids);
            && FromLe(t[4..8]) == |t|
            && Walk(t, TABLE_HEADER) == Some([IO_APIC, SOURCE_OVERRIDE, SOURCE_OVERRIDE, LOCAL_NMI]
                                             + seq(|ids|, _ => LOCAL_APIC))
  {
    hide Table, Le;
    var t := Table(ids);
    FixedParts(ids);
    Limits();
    LeRoundTrip(TableLength(|ids|), 4);
    WalkLocals(ids, 0);
    var locals := seq(|ids|, _ => LOCAL_APIC);
    assert Walk(t, 76) == Some([LOCAL_NMI] + locals);
    assert Walk(t, 66) == Some([SOURCE_OVERRIDE] + ([LOCAL_NMI] + locals));
    assert Walk(t, 56) == Some([SOURCE_OVERRIDE] + ([SOURCE_OVERRIDE] + ([LOCAL_NMI] + locals)));
    assert [IO_APIC] + ([SOURCE_OVERRIDE] + ([SOURCE_OVERRIDE] + ([LOCAL_NMI] + locals)))
        == [IO_APIC, SOURCE_OVERRIDE, SOURCE_OVERRIDE, LOCAL_NMI] + locals;
  }

  // The installer.

  /** The processor entries, written behind the fixed part. */
  method FillLocals(ids: array<bv8>, table: array<byte>)
    requires ids.Length <= MAX_CPUS && table.Length == TableLength(ids.Length)
    modifies table
    ensures table[..] == old(table[..FIXED_SIZE]) + Locals(ids[..], ids.Length)
  {
    hide Local;
    ghost var head := table[..FIXED_SIZE];
    var i := 0;
    while i < ids.Length
      invariant 0 <= i <= ids.Length
      invariant table[..FIXED_SIZE + LOCAL_SIZE * i] == head + Locals(ids[..], i)
    {
      ghost var done := table[..FIXED_SIZE + LOCAL_SIZE * i];
      Put(table, FIXED_SIZE + LOCAL_SIZE * i, Local(i + 1, ids[i]));
      assert table[..FIXED_SIZE + LOCAL_SIZE * (i + 1)] == done + Local(i + 1, ids[i]);
      i := i + 1;
    }
    assert table[..] == table[..FIXED_SIZE + LOCAL_SIZE * i];
  }

  /** The sum over the whole table, counting down its length. */
  method SumBytes(table: array<byte>) returns (sum: nat)
    ensures sum == ByteSum(table[..], table.Length)
  {
    var left, at := table.Length, 0;
    sum := 0;
    while left > 0
      invariant 0 <= left && at + left == table.Length
      invariant sum == ByteSum(table[..], at)
    {
      sum := sum + table[at] as int;
      at := at + 1;
      left := left - 1;
    }
  }

  /** Fill the table buffer: fixed part, one entry for each sorted id, then the checksum over all of
      it. */
  method BuildTable(ids: array<bv8>) returns (table: array<byte>)
    requires ids.Length <= MAX_CPUS
    ensures fresh(table) && table[..] == Table(ids[..])
  {
    hide Fixed, Locals, ByteSum, Negative;
    var n := ids.Length;
    table := new byte[TableLength(n)];
    Put(table, 0, Fixed(n));
    assert table[..FIXED_SIZE] == Fixed(n);
    FillLocals(ids, table);
    assert table[..] == Unsummed(ids[..]);
    var sum := SumBytes(table);
    table[CHECKSUM_AT] := Negative(sum);
  }

  /** What a complete set of reports says. */
  function Reported(reports: seq<Option<Cpu>>): (r: seq<Cpu>)
    requires None !in reports
    ensures |r| == |reports| && forall i {:trigger r[i]} :: 0 <= i < |r| ==> Some(r[i]) == reports[i]
  {
    if reports == [] then [] else [reports[0].value] + Reported(reports[1..])
  }

  /** Query the processors in turn; the first failing query ends it. */
  method CollectIds(reports: seq<Option<Cpu>>, rgbApic: array<bv8>) returns (complete: bool)
    requires |reports| <= rgbApic.Length
    modifies rgbApic
    ensures complete <==> None !in reports
    ensures complete ==> rgbApic[..|reports|] == Tags(Reported(reports))
  {
    hide Tagged;
    var i := 0;
    while i < |reports|
      invariant 0 <= i <= |reports|
      invariant forall k :: 0 <= k < i ==> reports[k].Some? && rgbApic[k] == Tagged(reports[k].value)
    {
      if reports[i].None? {
        return false;
      }
      rgbApic[i] := Tagged(reports[i].value);
      i := i + 1;
    }
    complete := true;
  }

  /** Take the tags off again, in place. */
  method UntagAll(rgbApic: array<bv8>)
    modifies rgbApic
    ensures rgbApic[..] == Untag(old(rgbApic[..]))
  {
    hide Untagged;
    var i := 0;
    while i < rgbApic.Length
      invariant 0 <= i <= rgbApic.Length
      invariant forall k :: 0 <= k < i ==> rgbApic[k] == Untagged(old(rgbApic[k]))
      invariant forall k :: i <= k < rgbApic.Length ==> rgbApic[k] == old(rgbApic[k])
    {
      rgbApic[i] := Untagged(rgbApic[i]);
      i := i + 1;
    }
  }

  /** All primary processors come first, then all secondary ones, each group complete and ascending. */
  ghost predicate Ordered(cpus: seq<Cpu>, ids: seq<bv8>) {
    var primaries := Ids(cpus, false);
    && |primaries| <= |ids| == |cpus|
    && Permutation(ids[..|primaries|], primaries) && Ascending(ids[..|primaries|])
    && Permutation(ids[|primaries|..], Ids(cpus, true)) && Ascending(ids[|primaries|..])
  }

  /** Read entry by entry: as many ids as processors, no primary behind a secondary processor, ascending
      inside each group, and each group holds the ids that its processors reported. */
  lemma OrderedExactly(cpus: seq<Cpu>, ids: seq<bv8>)
    ensures Ordered(cpus, ids) <==>
              var n := |Ids(cpus, false)|;
              && n <= |ids| == |cpus|
              && (forall i, j :: 0 <= i < j < n ==> ids[i] <= ids[j])
              && (forall i, j :: n <= i < j < |ids| ==> ids[i] <= ids[j])
              && multiset(ids[..n]) == multiset(Ids(cpus, false))
              && multiset(ids[n..]) == multiset(Ids(cpus, true))
  {
    hide Ids;
    var n := |Ids(cpus, false)|;
    if n <= |ids| {
      AscendingWindow(ids, 0, n);
      AscendingWindow(ids, n, |ids|);
    }
  }

  lemma AscendingWindow(s: seq<bv8>, from: nat, end: nat)
    requires from <= end <= |s|
    ensures Ascending(s[from..end]) <==> forall i, j :: from <= i < j < end ==> s[i] <= s[j]
  {
    var part := s[from..end];
    if Ascending(part) {
      forall i, j | from <= i < j < end ensures s[i] <= s[j] {
        assert part[i - from] <= part[j - from];
      }
    }
  }

  /** AcpiPlatformAPICInstall, from the reports of the MP services (None for a failing query) to the
      installed table. */
  method Install(reports: seq<Option<Cpu>>) returns (table: Option<seq<byte>>, ghost ids: seq<bv8>)
    requires 1 <= |reports| <= MAX_CPUS
    requires forall r :: r in reports && r.Some? ==> r.value.apicId < 0x80
    ensures table.Some? <==> None !in reports
    ensures table.Some? ==> Ordered(Reported(reports), ids) && table.value == Table(ids)
  {
    hide Permutation, Ascending, Tagged, Untagged, Ordered;
    var rgbApic := new bv8[|reports|];
    var complete := CollectIds(reports, rgbApic);
    if !complete {
      return None, [];
    }
    assert rgbApic[..] == rgbApic[..|reports|];
    Sort(rgbApic);
    SortedReports(reports, rgbApic[..]);
    UntagAll(rgbApic);
    ids := rgbApic[..];
    var built := BuildTable(rgbApic);
    table := Some(built[..]);
  }

  lemma SortedReports(reports: seq<Option<Cpu>>, sorted: seq<bv8>)
    requires None !in reports
    requires forall r :: r in reports && r.Some? ==> r.value.apicId < 0x80
    requires Permutation(Tags(Reported(reports)), sorted) && Ascending(sorted)
    ensures |sorted| == |reports| && Ordered(Reported(reports), Untag(sorted))
  {
    hide Permutation, Ascending, Tagged, Untagged;
    var cpus := Reported(reports);
    forall c | c in cpus ensures c.apicId < 0x80 {
      var i :| 0 <= i < |cpus| && cpus[i] == c;
      assert Some(cpus[i]) == reports[i];
    }
    SameSize(Tags(cpus), sorted);
    PrimariesFirst(cpus, sorted);
  }
}
