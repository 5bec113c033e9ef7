/** The CD-ROM wait delay patch of a SATA AHCI option ROM: find the marker behind the PCI data
    structure, replace the delay word and keep the image's byte sum. */
module SataRom {
  import opened Bytes
  import opened Nor

  /** "CDRMWTDL" */
  const MARKER: seq<byte> := [0x43, 0x44, 0x52, 0x4D, 0x57, 0x54, 0x44, 0x4C]

  const PCIR_OFFSET_AT: nat := 0x18
  const ROM_HEADER_SIZE: nat := 0x1A
  const PCIR_SIZE: nat := 0x18

  // Offsets in the PCI data structure.
  const LENGTH_AT: nat := 0x0A
  const IMAGE_LENGTH_AT: nat := 0x10
  const CODE_TYPE_AT: nat := 0x14

  /** The setup variable: absent, or whether the slow delay is selected. The two delays are platform
      constants. */
  datatype Setup = Setup(slow: Option<bool>, slowDelay: nat, fastDelay: nat)
  {
    predicate Sane() {
      slowDelay < 0x1_0000 && fastDelay < 0x1_0000
    }

    function Delay(): nat
      requires slow.Some?
    {
      if slow.value then slowDelay else fastDelay
    }
  }

  function WordAt(rom: seq<byte>, at: nat): nat
    requires at + 2 <= |rom|
  {
    Word(rom[at], rom[at + 1])
  }

  /** The checks up to the location of the checksum byte: its index, or None where the code reports
      EFI_NOT_FOUND. */
  function ChecksumAt(rom: seq<byte>): (at: Option<nat>)
    requires |rom| >= ROM_HEADER_SIZE
    ensures at.Some? ==> at.value <= |rom| && WordAt(rom, PCIR_OFFSET_AT) + PCIR_SIZE <= |rom|
  {
    var pcir := WordAt(rom, PCIR_OFFSET_AT);
    if WordAt(rom, 0) != 0xAA55 then None
    else if pcir == 0 || pcir % 4 != 0 || |rom| < pcir + PCIR_SIZE then None
    else if rom[pcir..pcir + 4] != [0x50, 0x43, 0x49, 0x52] then None
    else if WordAt(rom, pcir + IMAGE_LENGTH_AT) * 512 > |rom| then None
    else if rom[pcir + CODE_TYPE_AT] != 0 then None
    else
      var checksum := pcir + WordAt(rom, pcir + LENGTH_AT) + 5;
      if checksum > |rom| then None else Some(checksum)
  }

  predicate MarkerAt(rom: seq<byte>, at: nat) {
    at + |MARKER| <= |rom| && rom[at..at + |MARKER|] == MARKER
  }

  /** The first marker at or behind `from` that leaves room for the delay word and one more byte. */
  function FindMarker(rom: seq<byte>, from: nat): (at: Option<nat>)
    ensures at.Some? ==> from <= at.value && at.value + |MARKER| + 2 < |rom| && MarkerAt(rom, at.value)
    ensures forall i :: from <= i < (if at.Some? then at.value else |rom| - |MARKER| - 2) ==> !MarkerAt(rom, i)
    decreases |rom| - from
  {
    if from + |MARKER| + 2 >= |rom| then None
    else if MarkerAt(rom, from) then Some(from)
    else FindMarker(rom, from + 1)
  }

  /** Where the patch goes: index of the checksum byte and of the delay word. */
  function Places(rom: seq<byte>): (r: Option<(nat, nat)>)
    requires |rom| >= ROM_HEADER_SIZE
    ensures r.Some? ==>
              && r.value.0 + 1 + |MARKER| <= r.value.1 && r.value.1 + 2 < |rom|
              && WordAt(rom, PCIR_OFFSET_AT) + PCIR_SIZE <= |rom|
  {
    match ChecksumAt(rom)
    case None => None
    case Some(checksum) =>
      match FindMarker(rom, checksum + 1)
      case None => None
      case Some(marker) => Some((checksum, marker + |MARKER|))
  }

  /** The checksum byte that makes up for delay bytes `x`, `y` becoming `lo`, `hi`. */
  function Balance(checksum: byte, x: byte, y: byte, lo: byte, hi: byte): byte {
    (checksum as int + x as int + y as int - lo as int - hi as int) % 256
  }

  lemma ModShift(t: int, k: int)
    ensures (t - 256 * k) % 256 == t % 256
    ensures (t % 256 - t) % 256 == 0
  {
  }

  lemma SameMod(x: int, y: int, k: int)
    requires x == y - 256 * k
    ensures x % 256 == y % 256
  {
    ModShift(y, k);
  }

  lemma BalanceKeepsSum(c: byte, x: byte, y: byte, lo: byte, hi: byte) returns (k: int)
    ensures Balance(c, x, y, lo, hi) as int + lo as int + hi as int + 256 * k == c as int + x as int + y as int
  {
    k := (c as int + x as int + y as int - lo as int - hi as int) / 256;
  }

  lemma BalanceTwice(c: byte, x: byte, y: byte, v: byte, w: byte, lo: byte, hi: byte)
    ensures Balance(Balance(c, x, y, v, w), v, w, lo, hi) == Balance(c, x, y, lo, hi)
  {
    var u := c as int + x as int + y as int - v as int - w as int;
    ModShift(c as int + x as int + y as int - lo as int - hi as int, u / 256);
  }

  lemma BalanceInTwoSteps(c: byte, x: byte, y: byte, lo: byte, hi: byte)
    ensures ((c as int + x as int + y as int) % 256 - lo as int - hi as int) % 256 == Balance(c, x, y, lo, hi)
  {
    var sum := c as int + x as int + y as int;
    ModShift(sum - lo as int - hi as int, sum / 256);
  }

  function Lo(value: nat): byte {
    value % 256
  }

  function Hi(value: nat): byte
    requires value < 0x1_0000
  {
    value / 256
  }

  /** The delay word replaced, and the checksum byte moved by the difference of the delay bytes. */
  function Patched(rom: seq<byte>, checksum: nat, delay: nat, value: nat): (r: seq<byte>)
    requires checksum < delay && delay + 2 <= |rom| && value < 0x1_0000
    ensures |r| == |rom|
  {
    var lo, hi := Lo(value), Hi(value);
    rom[checksum := Balance(rom[checksum], rom[delay], rom[delay + 1], lo, hi)][delay := lo][delay + 1 := hi]
  }

  /** The status and the image that CheckAndPatchSataAhciRom leaves. */
  function Result(rom: seq<byte>, setup: Setup): (r: (Status, seq<byte>))
    requires |rom| >= ROM_HEADER_SIZE && setup.Sane()
    ensures |r.1| == |rom|
  {
    if setup.slow.None? then (NotFound, rom)
    else match Places(rom)
      case None => (NotFound, rom)
      case Some((checksum, delay)) =>
        if WordAt(rom, delay) == setup.Delay() then (Success, rom)
        else (Success, Patched(rom, checksum, delay, setup.Delay()))
  }

  /** The search for the marker, byte by byte. */
  method SearchMarker(bios: array<byte>, from: nat) returns (at: Option<nat>)
    ensures at == FindMarker(bios[..], from)
  {
    hide MarkerAt;
    var place := from;
    while place + |MARKER| + 2 < bios.Length
      invariant FindMarker(bios[..], from) == FindMarker(bios[..], place)
      decreases bios.Length - place
    {
      if MarkerAt(bios[..], place) {
        return Some(place);
      }
      place := place + 1;
    }
    return None;
  }

  /** CheckAndPatchSataAhciRom, in place. Every access stays inside the buffer. */
  method CheckAndPatch(bios: array<byte>, setup: Setup) returns (status: Status)
    requires bios.Length >= ROM_HEADER_SIZE && setup.Sane()
    modifies bios
    ensures (status, bios[..]) == Result(old(bios[..]), setup)
  {
    hide Patched, MarkerAt, FindMarker, ChecksumAt, WordAt;
    if setup.slow.None? {
      return NotFound;
    }
    var checksum := ChecksumAt(bios[..]);
    if checksum.None? {
      return NotFound;
    }
    var marker := SearchMarker(bios, checksum.value + 1);
    if marker.None? {
      return NotFound;
    }
    var place := marker.value + |MARKER|;
    if WordAt(bios[..], place) == setup.Delay() {
      return Success;
    }
    PatchInPlace(bios, checksum.value, place, setup.Delay());
    return Success;
  }

  /** The three stores of the patch. */
  method PatchInPlace(bios: array<byte>, checksum: nat, delay: nat, value: nat)
    requires checksum < delay && delay + 2 <= bios.Length && value < 0x1_0000
    modifies bios
    ensures bios[..] == Patched(old(bios[..]), checksum, delay, value)
  {
    hide Balance, Lo, Hi;
    BalanceInTwoSteps(bios[checksum], bios[delay], bios[delay + 1], Lo(value), Hi(value));
    // 8-bit sums, as the code keeps them.
    var newChecksum := (bios[checksum] as int + bios[delay] as int + bios[delay + 1] as int) % 256;
    bios[delay], bios[delay + 1] := Lo(value), Hi(value);
    bios[checksum] := (newChecksum - bios[delay] as int - bios[delay + 1] as int) % 256;
  }

  lemma SumOfThree(a: seq<byte>, i: nat, x: byte, j: nat, y: byte, z: byte, n: nat)
    requires i < j && j + 2 <= n <= |a|
    ensures ByteSum(a[i := x][j := y][j + 1 := z], n) + a[i] as int + a[j] as int + a[j + 1] as int
         == ByteSum(a, n) + x as int + y as int + z as int
  {
    var b: seq<byte> := a[i := x];
    var c: seq<byte> := b[j := y];
    SumUpdate(a, i, x, n);
    SumUpdate(b, j, y, n);
    SumUpdate(c, j + 1, z, n);
    var d: seq<byte> := c[j + 1 := z];
    assert ByteSum(d, n) == ByteSum(c, n) + z as int - a[j + 1] as int;
  }

  /** The byte sum modulo 256, which option ROM loaders check, survives the patch. */
  lemma PatchKeepsSum(rom: seq<byte>, checksum: nat, delay: nat, value: nat)
    requires checksum < delay && delay + 2 <= |rom| && value < 0x1_0000
    ensures ByteSum(Patched(rom, checksum, delay, value), |rom|) % 256 == ByteSum(rom, |rom|) % 256
  {
    hide Balance, Lo, Hi;
    var lo, hi := Lo(value), Hi(value);
    var c := Balance(rom[checksum], rom[delay], rom[delay + 1], lo, hi);
    var k := BalanceKeepsSum(rom[checksum], rom[delay], rom[delay + 1], lo, hi);
    SumOfThree(rom, checksum, c, delay, lo, hi, |rom|);
    SameMod(ByteSum(Patched(rom, checksum, delay, value), |rom|), ByteSum(rom, |rom|), k);
  }

  lemma PatchedFrame(rom: seq<byte>, checksum: nat, delay: nat, value: nat)
    requires checksum < delay && delay + 2 <= |rom| && value < 0x1_0000
    ensures var b := Patched(rom, checksum, delay, value);
            forall i {:trigger b[i]} :: 0 <= i < |rom| && i != checksum && i != delay && i != delay + 1 ==>
              b[i] == rom[i]
  {
  }

  /** For every image and setting: the byte sum is kept, and only the checksum byte and the two delay
      bytes may change. */
  lemma ResultKeepsSum(rom: seq<byte>, setup: Setup)
    requires |rom| >= ROM_HEADER_SIZE && setup.Sane()
    ensures var after := Result(rom, setup).1;
            && ByteSum(after, |rom|) % 256 == ByteSum(rom, |rom|) % 256
            && forall i :: 0 <= i < |rom| && after[i] != rom[i] ==>
                 && Places(rom).Some?
                 && (i == Places(rom).value.0 || i == Places(rom).value.1 || i == Places(rom).value.1 + 1)
  {
    hide Places, Patched, WordAt;
    if setup.slow.Some? && Places(rom).Some? {
      var (checksum, delay) := Places(rom).value;
      PatchedFrame(rom, checksum, delay, setup.Delay());
      PatchKeepsSum(rom, checksum, delay, setup.Delay());
    }
  }

  // Patching an image again.

  /** Where the patched bytes fall in an image that a patch leaves patchable in the same places: not on
      the pointer to the PCI data structure, the structure's length or its code type, and on a byte of
      the image length only if no value of that byte makes the announced image too long. */
  predicate Steady(rom: seq<byte>)
    requires |rom| >= ROM_HEADER_SIZE
  {
    match Places(rom)
    case None => true
    case Some((checksum, delay)) =>
      var pcir := WordAt(rom, PCIR_OFFSET_AT);
      && checksum != PCIR_OFFSET_AT && checksum != PCIR_OFFSET_AT + 1
      && checksum != pcir + LENGTH_AT && checksum != pcir + LENGTH_AT + 1
      && checksum != pcir + CODE_TYPE_AT && delay != pcir + CODE_TYPE_AT
      && (checksum == pcir + IMAGE_LENGTH_AT ==> Word(0xFF, rom[pcir + IMAGE_LENGTH_AT + 1]) * 512 <= |rom|)
      && (checksum == pcir + IMAGE_LENGTH_AT + 1 ==> Word(rom[pcir + IMAGE_LENGTH_AT], 0xFF) * 512 <= |rom|)
  }

  /** The PCI data structure's own length covers the structure. */
  predicate LengthCovers(rom: seq<byte>)
    requires |rom| >= ROM_HEADER_SIZE
  {
    var pcir := WordAt(rom, PCIR_OFFSET_AT);
    pcir + PCIR_SIZE <= |rom| ==> WordAt(rom, pcir + LENGTH_AT) >= PCIR_SIZE
  }

  lemma LowByte(lo: byte, hi: byte)
    ensures Word(lo, hi) == 4 ==> lo == 4
  {
  }

  /** What the checks know of an image that passes them. */
  lemma ChecksumFacts(rom: seq<byte>)
    requires |rom| >= ROM_HEADER_SIZE && ChecksumAt(rom).Some?
    ensures var pcir := WordAt(rom, PCIR_OFFSET_AT);
            && pcir % 4 == 0 && 8 <= pcir && pcir + PCIR_SIZE <= |rom|
            && WordAt(rom, pcir + IMAGE_LENGTH_AT) * 512 <= |rom|
            && rom[pcir + CODE_TYPE_AT] == 0
            && ChecksumAt(rom).value == pcir + WordAt(rom, pcir + LENGTH_AT) + 5
  {
    hide Word;
    // With a pointer of 4, its own low byte would be the code type.
    LowByte(rom[PCIR_OFFSET_AT], rom[PCIR_OFFSET_AT + 1]);
  }

  /** The marker cannot overlap the structure's length, whose high byte would then put the checksum
      byte behind the marker. So the delay word comes no earlier than the code type. */
  lemma DelayBehind(rom: seq<byte>)
    requires |rom| >= ROM_HEADER_SIZE && Places(rom).Some?
    ensures WordAt(rom, PCIR_OFFSET_AT) + CODE_TYPE_AT <= Places(rom).value.1
  {
    hide ChecksumAt, FindMarker;
    ChecksumFacts(rom);
    var (pcir, (checksum, delay)) := (WordAt(rom, PCIR_OFFSET_AT), Places(rom).value);
    var marker := delay - |MARKER|;
    if marker <= pcir + LENGTH_AT + 1 {
      MarkerByte(rom, marker, pcir + LENGTH_AT + 1 - marker);
    }
  }

  lemma MarkerByte(rom: seq<byte>, at: nat, i: nat)
    requires MarkerAt(rom, at) && i < |MARKER|
    ensures rom[at + i] >= 0x43
  {
    assert rom[at + i] == rom[at..at + |MARKER|][i] == MARKER[i];
  }

  lemma CoveringIsSteady(rom: seq<byte>)
    requires |rom| >= ROM_HEADER_SIZE && LengthCovers(rom)
    ensures Steady(rom)
  {
    hide ChecksumAt, FindMarker;
    if Places(rom).Some? {
      ChecksumFacts(rom);
    }
  }

  lemma {:induction false} SameMarker(a: seq<byte>, b: seq<byte>, from: nat, at: nat)
    requires |a| == |b| && FindMarker(a, from) == Some(at)
    requires forall i :: from <= i < at + |MARKER| ==> a[i] == b[i]
    ensures FindMarker(b, from) == Some(at)
    decreases |a| - from
  {
    assert a[from..from + |MARKER|] == b[from..from + |MARKER|];
    if from == at {
    } else {
      SameMarker(a, b, from + 1, at);
    }
  }

  /** An image passes the checks exactly if it starts with 0x55 0xAA, its pointer leads to an aligned
      "PCIR" structure inside the buffer, the announced image fits, the code type is PC-AT, and the byte
      five behind the structure's end is at most one past the buffer. */
  lemma ChecksumExactly(rom: seq<byte>, pcir: nat)
    requires |rom| >= 0x1A && pcir == rom[0x18] as int + 256 * rom[0x19] as int
    ensures ChecksumAt(rom).Some? <==>
              && rom[0] == 0x55 && rom[1] == 0xAA
              && pcir != 0 && pcir % 4 == 0 && pcir + 0x18 <= |rom|
              && (forall i :: 0 <= i < 4 ==> rom[pcir + i] as int == "PCIR"[i] as int)
              && 512 * (rom[pcir + 0x10] as int + 256 * rom[pcir + 0x11] as int) <= |rom|
              && rom[pcir + 0x14] == 0
              && pcir + rom[pcir + 0x0A] as int + 256 * rom[pcir + 0x0B] as int + 5 <= |rom|
    ensures ChecksumAt(rom).Some? ==>
              ChecksumAt(rom).value == pcir + rom[pcir + 0x0A] as int + 256 * rom[pcir + 0x0B] as int + 5
  {
    if pcir + 4 <= |rom| {
      Letters(rom[pcir..pcir + 4], [0x50, 0x43, 0x49, 0x52], "PCIR");
    }
  }

  lemma MarkerExactly(rom: seq<byte>, at: nat)
    ensures MarkerAt(rom, at) <==>
              at + 8 <= |rom| && forall i :: 0 <= i < 8 ==> rom[at + i] as int == "CDRMWTDL"[i] as int
  {
    if at + 8 <= |rom| {
      Letters(rom[at..at + 8], MARKER, "CDRMWTDL");
    }
  }

  /** The patch goes behind the first marker behind the checksum byte, if the delay word and one more
      byte fit there. */
  lemma PlacesExactly(rom: seq<byte>, checksum: nat, delay: nat)
    requires |rom| >= ROM_HEADER_SIZE
    ensures Places(rom) == Some((checksum, delay)) <==>
              && ChecksumAt(rom) == Some(checksum)
              && checksum + 9 <= delay && delay + 2 < |rom| && MarkerAt(rom, delay - 8)
              && (forall i :: checksum < i < delay - 8 ==> !MarkerAt(rom, i))
  {
    hide ChecksumAt, MarkerAt;
  }

  /** A call succeeds exactly if it finds a place and a setting, and then leaves the delay selected by the
      setting. A call that fails leaves the image alone. */
  lemma ResultExactly(rom: seq<byte>, setup: Setup)
    requires |rom| >= ROM_HEADER_SIZE && setup.Sane()
    ensures var (status, after) := Result(rom, setup);
            && status == (if setup.slow.Some? && Places(rom).Some? then Success else NotFound)
            && (status == NotFound ==> after == rom)
            && (status == Success ==>
                  WordAt(after, Places(rom).value.1)
                  == if setup.slow == Some(true) then setup.slowDelay else setup.fastDelay)
  {
    hide Places, Patched, WordAt;
    if setup.slow.Some? && Places(rom).Some? {
      var (checksum, delay) := Places(rom).value;
      PatchSame(rom, checksum, delay, setup.Delay());
    }
  }

  /** Images that agree in what the checks read, up to an image length that is short enough in both, have
      the checksum byte in the same place. */
  lemma SameChecksumAt(a: seq<byte>, b: seq<byte>)
    requires |a| == |b| >= ROM_HEADER_SIZE && ChecksumAt(a).Some?
    requires WordAt(a, 0) == WordAt(b, 0) && WordAt(a, PCIR_OFFSET_AT) == WordAt(b, PCIR_OFFSET_AT)
    requires var pcir := WordAt(a, PCIR_OFFSET_AT);
             && a[pcir..pcir + 4] == b[pcir..pcir + 4]
             && WordAt(a, pcir + LENGTH_AT) == WordAt(b, pcir + LENGTH_AT)
             && WordAt(b, pcir + IMAGE_LENGTH_AT) * 512 <= |b|
             && a[pcir + CODE_TYPE_AT] == b[pcir + CODE_TYPE_AT]
    ensures ChecksumAt(a) == ChecksumAt(b)
  {
    hide WordAt;
  }

  /** The image length that a patch of a steady image leaves is still short enough. */
  lemma ImageLengthStays(rom: seq<byte>, value: nat)
    requires |rom| >= ROM_HEADER_SIZE && Steady(rom) && Places(rom).Some? && value < 0x1_0000
    ensures var ((checksum, delay), pcir) := (Places(rom).value, WordAt(rom, PCIR_OFFSET_AT));
            WordAt(Patched(rom, checksum, delay, value), pcir + IMAGE_LENGTH_AT) * 512 <= |rom|
  {
    hide Patched, ChecksumAt, FindMarker;
    var ((checksum, delay), pcir) := (Places(rom).value, WordAt(rom, PCIR_OFFSET_AT));
    ChecksumFacts(rom);
    DelayBehind(rom);
    PatchedFrame(rom, checksum, delay, value);
  }

  /** Patched bytes that fall on none of them leave the other fields that the checks read alone. */
  lemma SameFields(a: seq<byte>, b: seq<byte>, checksum: nat, delay: nat)
    requires |a| == |b| >= ROM_HEADER_SIZE
    requires forall i :: 0 <= i < |a| && i != checksum && i != delay && i != delay + 1 ==> a[i] == b[i]
    requires var pcir := WordAt(a, PCIR_OFFSET_AT);
             && 8 <= pcir && pcir + PCIR_SIZE <= |a| && pcir + 5 <= checksum && pcir + CODE_TYPE_AT < delay
             && checksum !in {PCIR_OFFSET_AT, PCIR_OFFSET_AT + 1, pcir + LENGTH_AT, pcir + LENGTH_AT + 1,
                              pcir + CODE_TYPE_AT}
    ensures WordAt(a, 0) == WordAt(b, 0) && WordAt(a, PCIR_OFFSET_AT) == WordAt(b, PCIR_OFFSET_AT)
    ensures var pcir := WordAt(a, PCIR_OFFSET_AT);
            && a[pcir..pcir + 4] == b[pcir..pcir + 4]
            && WordAt(a, pcir + LENGTH_AT) == WordAt(b, pcir + LENGTH_AT)
            && a[pcir + CODE_TYPE_AT] == b[pcir + CODE_TYPE_AT]
  {
    hide Word;
  }

  /** A patch of a steady image does not move the places that the next call will patch. */
  lemma PlacesStay(rom: seq<byte>, value: nat)
    requires |rom| >= ROM_HEADER_SIZE && Steady(rom) && Places(rom).Some? && value < 0x1_0000
    ensures var (checksum, delay) := Places(rom).value;
            Places(Patched(rom, checksum, delay, value)) == Places(rom)
  {
    hide Patched, FindMarker, ChecksumAt;
    var (checksum, delay) := Places(rom).value;
    var b := Patched(rom, checksum, delay, value);
    ChecksumFacts(rom);
    DelayBehind(rom);
    PatchedFrame(rom, checksum, delay, value);
    ImageLengthStays(rom, value);
    SameFields(rom, b, checksum, delay);
    SameChecksumAt(rom, b);
    SameMarker(rom, b, checksum + 1, delay - |MARKER|);
  }

  lemma PatchTwice(rom: seq<byte>, checksum: nat, delay: nat, v: nat, w: nat)
    requires checksum < delay && delay + 2 <= |rom| && v < 0x1_0000 && w < 0x1_0000
    ensures Patched(Patched(rom, checksum, delay, v), checksum, delay, w) == Patched(rom, checksum, delay, w)
  {
    hide Balance, Lo, Hi;
    BalanceTwice(rom[checksum], rom[delay], rom[delay + 1], Lo(v), Hi(v), Lo(w), Hi(w));
  }

  lemma PatchSame(rom: seq<byte>, checksum: nat, delay: nat, v: nat)
    requires checksum < delay && delay + 2 <= |rom| && v < 0x1_0000
    ensures WordAt(Patched(rom, checksum, delay, v), delay) == v
    ensures WordAt(rom, delay) == v ==> Patched(rom, checksum, delay, v) == rom
  {
  }

  /** Whatever was patched before, the image after a call is the one that the call alone gives. So a
      second call with the same setting changes nothing, and slow then fast is the same as fast. */
  lemma LastSettingWins(rom: seq<byte>, first: Setup, second: Setup)
    requires |rom| >= ROM_HEADER_SIZE && Steady(rom) && first.Sane() && second.Sane()
    requires second.slow.Some?
    ensures Result(Result(rom, first).1, second) == Result(rom, second)
  {
    hide Places, Patched, WordAt;
    if first.slow.Some? && Places(rom).Some? {
      var (checksum, delay) := Places(rom).value;
      PlacesStay(rom, first.Delay());
      PatchTwice(rom, checksum, delay, first.Delay(), second.Delay());
      PatchSame(rom, checksum, delay, first.Delay());
      PatchSame(rom, checksum, delay, second.Delay());
    }
  }

  /** The slow setting and then the fast one give what the fast one alone gives. */
  predicate SlowThenFast(rom: seq<byte>, slowDelay: nat, fastDelay: nat)
    requires |rom| >= ROM_HEADER_SIZE && slowDelay < 0x1_0000 && fastDelay < 0x1_0000
  {
    var slow, fast := Setup(Some(true), slowDelay, fastDelay), Setup(Some(false), slowDelay, fastDelay);
    Result(Result(rom, slow).1, fast) == Result(rom, fast)
  }

  /** A slow patch that makes the checks fail, or that moves the checksum byte back and leaves another
      value in its old place, cannot be undone by the fast one. */
  lemma Spoils(rom: seq<byte>, v: nat)
    requires |rom| >= ROM_HEADER_SIZE && Places(rom).Some? && v < 0x1_0000
    requires v != WordAt(rom, Places(rom).value.1)
    requires var (checksum, delay) := Places(rom).value;
             var b := Patched(rom, checksum, delay, v);
             ChecksumAt(b).None? || (ChecksumAt(b).value > checksum && b[checksum] != rom[checksum])
    ensures !SlowThenFast(rom, v, WordAt(rom, Places(rom).value.1))
  {
    hide ChecksumAt, FindMarker, Balance, Lo, Hi;
  }

  /** A delay that makes the checksum byte `b`. */
  function DelayFor(rom: seq<byte>, b: byte): (v: nat)
    requires |rom| >= ROM_HEADER_SIZE && Places(rom).Some?
    ensures v < 0x1_0000
  {
    var (checksum, delay) := Places(rom).value;
    (rom[checksum] as int + rom[delay] as int + rom[delay + 1] as int - b as int) % 256
  }

  lemma DelayForWorks(rom: seq<byte>, b: byte)
    requires |rom| >= ROM_HEADER_SIZE && Places(rom).Some?
    ensures var ((checksum, delay), v) := (Places(rom).value, DelayFor(rom, b));
            && Patched(rom, checksum, delay, v)[checksum] == b
            && (b != rom[checksum] ==> v != WordAt(rom, delay))
  {
    hide ChecksumAt, FindMarker, Places, Patched, Balance, Lo, Hi, WordAt;
    var ((checksum, delay), v) := (Places(rom).value, DelayFor(rom, b));
    BalanceHits(rom[checksum], rom[delay], rom[delay + 1], b);
    PatchedChecksum(rom, checksum, delay, v);
    PatchSame(rom, checksum, delay, v);
  }

  lemma PatchedChecksum(rom: seq<byte>, checksum: nat, delay: nat, v: nat)
    requires checksum < delay && delay + 2 <= |rom| && v < 0x1_0000
    ensures Patched(rom, checksum, delay, v)[checksum]
         == Balance(rom[checksum], rom[delay], rom[delay + 1], Lo(v), Hi(v))
  {
    hide Balance, Lo, Hi;
  }

  lemma BalanceHits(c: byte, x: byte, y: byte, b: byte)
    ensures var v := (c as int + x as int + y as int - b as int) % 256;
            Balance(c, x, y, Lo(v), Hi(v)) == b
  {
    var t := c as int + x as int + y as int - b as int;
    assert (t - t % 256) % 256 == 0;
  }

  /** What a patch of an unsteady image does to one of the bytes that the checks read. */
  ghost predicate Disturbed(rom: seq<byte>, b: seq<byte>, checksum: nat)
    requires |rom| == |b| >= ROM_HEADER_SIZE && checksum < |rom|
  {
    var pcir := WordAt(rom, PCIR_OFFSET_AT);
    || (WordAt(b, PCIR_OFFSET_AT) % 4 != 0)
    || (WordAt(b, PCIR_OFFSET_AT) > checksum && b[checksum] != rom[checksum])
    || (&& WordAt(b, PCIR_OFFSET_AT) == pcir && pcir + PCIR_SIZE <= |rom|
        && (|| b[pcir + CODE_TYPE_AT] != 0
            || WordAt(b, pcir + IMAGE_LENGTH_AT) * 512 > |b|
            || (pcir + WordAt(b, pcir + LENGTH_AT) + 5 > checksum && b[checksum] != rom[checksum])))
  }

  lemma DisturbedSpoils(rom: seq<byte>, v: nat)
    requires |rom| >= ROM_HEADER_SIZE && Places(rom).Some? && v < 0x1_0000
    requires v != WordAt(rom, Places(rom).value.1)
    requires var (checksum, delay) := Places(rom).value; Disturbed(rom, Patched(rom, checksum, delay, v), checksum)
    ensures !SlowThenFast(rom, v, WordAt(rom, Places(rom).value.1))
  {
    hide ChecksumAt, FindMarker, Patched, SlowThenFast;
    var (checksum, delay) := Places(rom).value;
    var b := Patched(rom, checksum, delay, v);
    if ChecksumAt(b).Some? {
      ChecksumFacts(b);
    }
    Spoils(rom, v);
  }

  /** The value of the checksum byte that disturbs the checks, by where the byte falls. */
  function DisturbingByte(rom: seq<byte>): (b: byte)
    requires |rom| >= ROM_HEADER_SIZE && Places(rom).Some?
  {
    var (checksum, pcir) := (Places(rom).value.0, WordAt(rom, PCIR_OFFSET_AT));
    if checksum == PCIR_OFFSET_AT || checksum == pcir + LENGTH_AT then (rom[checksum] as int + 1) % 256
    else if checksum == pcir + IMAGE_LENGTH_AT || checksum == pcir + IMAGE_LENGTH_AT + 1 then 0xFF
    else 1
  }

  lemma PointerLow(lo: byte, hi: byte)
    requires Word(lo, hi) % 4 == 0
    ensures lo < 0xFF && Word(lo + 1, hi) % 4 != 0
  {
  }

  /** The checksum byte falls on the pointer to the PCI data structure. */
  lemma PointerDisturbs(rom: seq<byte>, b: seq<byte>)
    requires |rom| == |b| >= ROM_HEADER_SIZE && Places(rom).Some?
    requires var (checksum, delay) := Places(rom).value;
             && checksum in {PCIR_OFFSET_AT, PCIR_OFFSET_AT + 1} && b[checksum] == DisturbingByte(rom)
             && (forall i :: 0 <= i < |rom| && i != checksum && i != delay && i != delay + 1 ==> b[i] == rom[i])
    ensures var checksum := Places(rom).value.0;
            b[checksum] != rom[checksum] && Disturbed(rom, b, checksum)
  {
    hide ChecksumAt, FindMarker, Places, Word;
    ChecksumIs(rom);
    ChecksumFacts(rom);
    DelayBehind(rom);
    PointerLow(rom[PCIR_OFFSET_AT], rom[PCIR_OFFSET_AT + 1]);
    PointerHigh(rom[PCIR_OFFSET_AT], rom[PCIR_OFFSET_AT + 1]);
    PointerHigh(rom[PCIR_OFFSET_AT], b[PCIR_OFFSET_AT + 1]);
  }

  lemma PointerHigh(lo: byte, hi: byte)
    ensures Word(lo, hi) > PCIR_OFFSET_AT + 1 || hi == 0
  {
  }

  lemma ChecksumIs(rom: seq<byte>)
    requires |rom| >= ROM_HEADER_SIZE && Places(rom).Some?
    ensures ChecksumAt(rom) == Some(Places(rom).value.0)
  {
    hide ChecksumAt, FindMarker;
  }

  /** A length that puts the checksum byte on one of its own bytes. */
  lemma LengthBytes(lo: byte, hi: byte)
    ensures Word(lo, hi) == 5 ==> lo == 5 && Word(6, hi) == 6
    ensures Word(lo, hi) == 6 ==> hi == 0 && Word(lo, 1) == 262
  {
  }

  /** The checksum byte falls on a field of the structure, and the pointer to it stays. */
  lemma FieldDisturbs(rom: seq<byte>, b: seq<byte>)
    requires |rom| == |b| >= ROM_HEADER_SIZE && Places(rom).Some? && !Steady(rom)
    requires var ((checksum, delay), pcir) := (Places(rom).value, WordAt(rom, PCIR_OFFSET_AT));
             && (delay == pcir + CODE_TYPE_AT ==> pcir + LENGTH_AT <= checksum)
             && checksum !in {PCIR_OFFSET_AT, PCIR_OFFSET_AT + 1} && b[checksum] == DisturbingByte(rom)
             && (forall i :: 0 <= i < |rom| && i != checksum && i != delay && i != delay + 1 ==> b[i] == rom[i])
    ensures var checksum := Places(rom).value.0;
            b[checksum] != rom[checksum] && Disturbed(rom, b, checksum)
  {
    hide ChecksumAt, FindMarker, Places, Word;
    ChecksumIs(rom);
    ChecksumFacts(rom);
    DelayBehind(rom);
    assert WordAt(b, PCIR_OFFSET_AT) == WordAt(rom, PCIR_OFFSET_AT);
    var pcir := WordAt(rom, PCIR_OFFSET_AT);
    LengthBytes(rom[pcir + LENGTH_AT], rom[pcir + LENGTH_AT + 1]);
  }

  /** An image that is not steady has a slow delay that its present delay cannot undo. */
  lemma UnsteadySpoils(rom: seq<byte>) returns (v: nat)
    requires |rom| >= ROM_HEADER_SIZE && !Steady(rom)
    ensures Places(rom).Some? && v < 0x1_0000
    ensures !SlowThenFast(rom, v, WordAt(rom, Places(rom).value.1))
  {
    hide FindMarker, Patched, DelayFor, SlowThenFast, ChecksumAt, DisturbingByte;
    var ((checksum, delay), pcir) := (Places(rom).value, WordAt(rom, PCIR_OFFSET_AT));
    ChecksumFacts(rom);
    DelayBehind(rom);
    if delay == pcir + CODE_TYPE_AT && checksum < pcir + LENGTH_AT
       && checksum !in {PCIR_OFFSET_AT, PCIR_OFFSET_AT + 1} {
      v := 1;
      PatchSame(rom, checksum, delay, v);
    } else {
      v := DelayFor(rom, DisturbingByte(rom));
      DelayForWorks(rom, DisturbingByte(rom));
      PatchedFrame(rom, checksum, delay, v);
      if checksum in {PCIR_OFFSET_AT, PCIR_OFFSET_AT + 1} {
        PointerDisturbs(rom, Patched(rom, checksum, delay, v));
      } else {
        FieldDisturbs(rom, Patched(rom, checksum, delay, v));
      }
    }
    PatchedFrame(rom, checksum, delay, v);
    DisturbedSpoils(rom, v);
  }

  /** Slow then fast is the same as fast, whatever the two delays, exactly for the steady images. */
  lemma SteadyExactly(rom: seq<byte>)
    requires |rom| >= ROM_HEADER_SIZE
    ensures Steady(rom) <==> forall v: nat, w: nat :: v < 0x1_0000 && w < 0x1_0000 ==> SlowThenFast(rom, v, w)
  {
    hide Steady, Result, Places;
    if Steady(rom) {
      forall v: nat, w: nat | v < 0x1_0000 && w < 0x1_0000 ensures SlowThenFast(rom, v, w) {
        LastSettingWins(rom, Setup(Some(true), v, w), Setup(Some(false), v, w));
      }
    } else {
      var v := UnsteadySpoils(rom);
      assert !SlowThenFast(rom, v, WordAt(rom, Places(rom).value.1));
    }
  }

  /** An image whose PCI data structure claims 15 bytes, so that the checksum byte falls on its code
      type field. */
  function Misplaced(): (rom: seq<byte>)
    ensures |rom| == 64
  {
    var zeros := seq(64, _ => 0);
    var header := zeros[0 := 0x55][1 := 0xAA][24 := 28];
    var pcir := header[28 := 0x50][29 := 0x43][30 := 0x49][31 := 0x52][38 := 15];
    Splice(pcir, 49, MARKER)
  }

  /** A concrete image that is not steady: the slow patch spoils the code type, and the fast one is then
      refused. */
  lemma MisplacedChecksumLosesSecondPatch()
    ensures var (rom, slow, fast) := (Misplaced(), Setup(Some(true), 1, 2), Setup(Some(false), 1, 2));
            && !Steady(rom)
            && Result(rom, fast).0 == Success
            && Result(Result(rom, slow).1, fast).0 == NotFound
  {
    hide Misplaced, FindMarker, ChecksumAt, Patched;
    var rom := Misplaced();
    MisplacedFields();
    FirstHere(rom, 49);
    MisplacedPatched();
  }

  lemma MisplacedFields()
    ensures var rom := Misplaced();
            && ChecksumAt(rom) == Some(48) && MarkerAt(rom, 49)
            && WordAt(rom, PCIR_OFFSET_AT) == 28 && WordAt(rom, 57) == 0
  {
    hide Misplaced;
    var rom := Misplaced();
    MisplacedBytes();
    MisplacedStrings();
    assert WordAt(rom, 0) == 0xAA55 && WordAt(rom, 24) == 28 && WordAt(rom, 38) == 15 && WordAt(rom, 44) == 0;
  }

  lemma MisplacedStrings()
    ensures var rom := Misplaced();
            rom[28..32] == [0x50, 0x43, 0x49, 0x52] && rom[49..57] == MARKER
  {
  }

  lemma MisplacedPatched()
    ensures ChecksumAt(Patched(Misplaced(), 48, 57, 1)) == None
  {
    hide Misplaced;
    var rom := Misplaced();
    MisplacedBytes();
    var slow := Patched(rom, 48, 57, 1);
    assert slow[48] == 255;
    PatchedFrame(rom, 48, 57, 1);
    assert WordAt(slow, PCIR_OFFSET_AT) == 28;
  }

  lemma MisplacedBytes()
    ensures var rom := Misplaced();
            && rom[0] == 0x55 && rom[1] == 0xAA && rom[24] == 28 && rom[25] == 0
            && rom[38] == 15 && rom[39] == 0 && rom[44] == 0 && rom[45] == 0
            && rom[48] == rom[57] == rom[58] == 0
  {
  }

  lemma FirstHere(rom: seq<byte>, at: nat)
    requires at + |MARKER| + 2 < |rom| && MarkerAt(rom, at)
    ensures FindMarker(rom, at) == Some(at)
  {
  }
}
