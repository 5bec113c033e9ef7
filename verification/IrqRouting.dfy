/** Legacy PCI interrupt routing: the routing table handed to the legacy BIOS, and the translation of a
    single interrupt pin, which must tell the same story. */
module IrqRouting {
  import opened Bytes

  const TABLE_BYTES: nat := 0xE00
  const HEADER_BYTES: nat := 0x20
  const ENTRY_BYTES: nat := 0x10

  /** Entries fit below the priority table at offset 0xE00. */
  const CAPACITY: nat := (TABLE_BYTES - HEADER_BYTES) / ENTRY_BYTES

  const PINS: nat := 4
  const PIRQ_LINKS: nat := 8

  datatype Location = Location(bus: nat, device: nat)

  /** Where a PCI function can be. */
  predicate OnPci(l: Location) {
    l.bus < 256 && l.device < 32
  }

  /** The devices that have an interrupt route register, in the order of DxxR. */
  const DXXR: seq<Location> := [
    Location(0, 31), Location(0, 29), Location(0, 28), Location(0, 27),
    Location(0, 26), Location(0, 25), Location(0, 22), Location(0, 20)]

  datatype PirqEntry = PirqEntry(pirq: byte, irqMask: nat)

  datatype RoutingEntry = RoutingEntry(bus: nat, device: nat, pins: seq<PirqEntry>, slot: byte)

  /** The chipset and board data: one 16-bit route register for each routed device, and the interrupt
      of each of the eight PIRQ links, where the top bit marks a disabled link. */
  datatype Board = Board(registers: seq<nat>, pirqTable: seq<byte>) {
    predicate Valid() {
      && |registers| == |DXXR| && (forall i :: 0 <= i < |registers| ==> registers[i] < 0x1_0000)
      && |pirqTable| == PIRQ_LINKS
    }

    /** Interrupts are ISA interrupts or marked as disabled, and link A is not disabled. */
    predicate Usable() {
      && Valid()
      && (forall i :: 0 <= i < PIRQ_LINKS ==> pirqTable[i] < 16 || pirqTable[i] >= 0x80)
      && pirqTable[0] < 16
    }
  }

  // Finding the route register.

  /** The first table row from `i` on for the device, or the table size. */
  function RowFrom(l: Location, i: nat): (row: nat)
    requires i <= |DXXR|
    ensures i <= row <= |DXXR| && (row < |DXXR| ==> DXXR[row] == l)
    ensures forall k :: i <= k < row ==> DXXR[k] != l
    decreases |DXXR| - i
  {
    if i == |DXXR| || DXXR[i] == l then i else RowFrom(l, i + 1)
  }

  predicate Routed(l: Location) {
    l in DXXR
  }

  /** The devices of bus 0 that have a route register. */
  lemma RoutedExactly(l: Location)
    ensures Routed(l) <==> l.bus == 0 && l.device in {20, 22, 25, 26, 27, 28, 29, 31}
  {
    if l.bus == 0 && l.device in {20, 22, 25, 26, 27, 28, 29, 31} {
      assert l in {DXXR[0], DXXR[1], DXXR[2], DXXR[3], DXXR[4], DXXR[5], DXXR[6], DXXR[7]};
    }
  }

  method FindRow(bus: nat, device: nat) returns (row: nat)
    ensures row == RowFrom(Location(bus, device), 0)
    ensures row < |DXXR| <==> Routed(Location(bus, device))
  {
    row := 0;
    while row < |DXXR|
      invariant 0 <= row <= |DXXR|
      invariant RowFrom(Location(bus, device), 0) == RowFrom(Location(bus, device), row)
      invariant forall k :: 0 <= k < row ==> DXXR[k] != Location(bus, device)
    {
      if DXXR[row].bus == bus && DXXR[row].device == device {
        break;
      }
      row := row + 1;
    }
  }

  // One pin.

  function Power16(k: nat): nat
    requires k < PINS
  {
    if k == 0 then 1 else if k == 1 then 0x10 else if k == 2 then 0x100 else 0x1000
  }

  /** The link selected for a pin: three bits of the pin's nibble. */
  function Link(register: nat, pin: nat): (link: nat)
    requires pin < PINS
    ensures link < PIRQ_LINKS
  {
    (register / Power16(pin)) % 8
  }

  /** The route register holds the links of its pins in its nibbles, the first pin lowest. */
  lemma LinkReadsNibbles(a: nat, b: nat, c: nat, d: nat)
    requires a < 0x10 && b < 0x10 && c < 0x10 && d < 0x10
    ensures var register := a + 0x10 * b + 0x100 * c + 0x1000 * d;
            && Link(register, 0) == a % 8 && Link(register, 1) == b % 8
            && Link(register, 2) == c % 8 && Link(register, 3) == d % 8
  {
    var register := a + 0x10 * b + 0x100 * c + 0x1000 * d;
    assert register / 0x10 == b + 0x10 * c + 0x100 * d;
    assert register / 0x100 == c + 0x10 * d;
    assert register / 0x1000 == d;
  }

  /** What TranslatePirq answers for a pin of a device: None when it is not supported. */
  function Translation(b: Board, l: Location, pin: nat): Option<byte>
    requires b.Valid()
  {
    if pin >= PINS then None
    else
      var row := RowFrom(l, 0);
      if row < |DXXR| then Some(b.pirqTable[Link(b.registers[row], pin)])
      else if pin == 0 then Some(b.pirqTable[0])
      else None
  }

  /** The interrupt of a routed device's pin is that of the link in the pin's nibble. */
  lemma TranslatesNibbles(b: Board, l: Location, row: nat, nibbles: seq<nat>, pin: nat)
    requires b.Valid() && row < |DXXR| && DXXR[row] == l && pin < PINS == |nibbles|
    requires forall i :: 0 <= i < PINS ==> nibbles[i] < 0x10
    requires b.registers[row] == nibbles[0] + 0x10 * nibbles[1] + 0x100 * nibbles[2] + 0x1000 * nibbles[3]
    ensures Translation(b, l, pin) == Some(b.pirqTable[nibbles[pin] % 8])
  {
    hide Link;
    LinkReadsNibbles(nibbles[0], nibbles[1], nibbles[2], nibbles[3]);
    RowIsUnique(row);
  }

  /** A device without a route register has only its first pin connected, to link A. */
  lemma TranslatesUnrouted(b: Board, l: Location, pin: nat)
    requires b.Valid() && !Routed(l)
    ensures Translation(b, l, pin) == if pin == 0 then Some(b.pirqTable[0]) else None
  {
  }

  lemma RowIsUnique(row: nat)
    requires row < |DXXR|
    ensures RowFrom(DXXR[row], 0) == row
  {
  }

  /** TranslatePirq; the device argument arrives shifted left by three. */
  method TranslatePirq(b: Board, pciBus: nat, pciDevice: nat, intX: nat) returns (irq: Option<byte>)
    requires b.Valid()
    ensures irq == Translation(b, Location(pciBus % 256, (pciDevice / 8) % 256), intX)
    ensures irq == None <==>
              intX > 3 || (intX != 0 && !Routed(Location(pciBus % 256, (pciDevice / 8) % 256)))
  {
    hide Link;
    if intX > 3 {
      return None;
    }
    var row := FindRow(pciBus % 256, (pciDevice / 8) % 256);
    var pirq := 0;
    if row >= |DXXR| {
      if intX != 0 {
        return None;
      }
    } else {
      pirq := Link(b.registers[row], intX);
    }
    irq := Some(b.pirqTable[pirq]);
  }

  function Bit(n: nat): (m: nat)
    ensures 1 <= m
  {
    if n == 0 then 1 else 2 * Bit(n - 1)
  }

  lemma {:induction false} BitGrows(a: nat, b: nat)
    requires a < b
    ensures Bit(a) < Bit(b)
  {
    if a + 1 == b {
    } else {
      BitGrows(a, b - 1);
    }
  }

  /** A pin's table entry says what the translation of that pin says. */
  predicate Agrees(p: PirqEntry, pin: nat, t: Option<byte>)
    requires pin < PINS
  {
    match t
    case None => p == PirqEntry(0, 0)
    case Some(irq) => p == PirqEntry(pin + 1, if irq >= 0x80 then 0 else Bit(irq as nat))
  }

  /** The legacy BIOS may use interrupt `n` for a pin exactly if the translation of the pin is `n`, and
      finds the pin unconnected exactly if the translation is not supported. */
  lemma MaskNamesIrq(p: PirqEntry, pin: nat, t: Option<byte>, n: byte)
    requires pin < PINS && Agrees(p, pin, t) && n < 0x80
    ensures p.irqMask == Bit(n as nat) <==> t == Some(n)
    ensures p.irqMask == 0 <==> t == None || t.value >= 0x80
    ensures p.pirq == if t == None then 0 else pin + 1
  {
    if t.Some? && t.value < 0x80 {
      if t.value < n {
        BitGrows(t.value as nat, n as nat);
      } else if n < t.value {
        BitGrows(n as nat, t.value as nat);
      }
    }
  }

  method IrqMask(b: Board, link: nat) returns (mask: nat)
    requires b.Usable() && link < PIRQ_LINKS
    ensures mask == if b.pirqTable[link] >= 0x80 then 0 else Bit(b.pirqTable[link] as nat)
    ensures mask < 0x1_0000
  {
    var irq := b.pirqTable[link];
    if irq >= 0x80 {
      mask := 0;
    } else {
      BitGrows(irq as nat, 16);
      SixteenBits();
      mask := Bit(irq as nat);
    }
  }

  lemma SixteenBits()
    ensures Bit(16) == 0x1_0000
  {
    assert Bit(4) == 16;
    assert Bit(8) == 256;
    assert Bit(12) == 4096;
  }

  /** The four pins of a device that is not in the table yet. */
  method FillPins(b: Board, l: Location) returns (pins: seq<PirqEntry>)
    requires b.Usable()
    ensures |pins| == PINS && forall k :: 0 <= k < PINS ==> Agrees(pins[k], k, Translation(b, l, k))
    ensures forall k :: 0 <= k < PINS ==> pins[k].irqMask < 0x1_0000
  {
    hide Bit;
    var row := FindRow(l.bus, l.device);
    if row >= |DXXR| {
      var mask := IrqMask(b, 0);
      pins := [PirqEntry(1, mask), PirqEntry(0, 0), PirqEntry(0, 0), PirqEntry(0, 0)];
    } else {
      var tmpPirq := b.registers[row];
      var mask0 := IrqMask(b, tmpPirq % 8);
      var mask1 := IrqMask(b, (tmpPirq / 0x10) % 8);
      var mask2 := IrqMask(b, (tmpPirq / 0x100) % 8);
      var mask3 := IrqMask(b, (tmpPirq / 0x1000) % 8);
      pins := [PirqEntry(1, mask0), PirqEntry(2, mask1), PirqEntry(3, mask2), PirqEntry(4, mask3)];
    }
  }

  // The routing table.

  /** The distinct locations, in the order in which they are first met. */
  function FirstSeen(ls: seq<Location>): seq<Location> {
    if ls == [] then []
    else
      var before, l := FirstSeen(ls[..|ls| - 1]), ls[|ls| - 1];
      if l in before then before else before + [l]
  }

  function FirstIndex(ls: seq<Location>, l: Location): (i: nat)
    requires l in ls
    ensures i < |ls| && ls[i] == l && forall k :: 0 <= k < i ==> ls[k] != l
  {
    if ls[0] == l then 0 else 1 + FirstIndex(ls[1..], l)
  }

  /** Every location is listed and nothing else is. */
  lemma {:induction false} SeenExactly(ls: seq<Location>, l: Location)
    ensures l in FirstSeen(ls) <==> l in ls
  {
    if ls == [] {
    } else {
      SeenExactly(ls[..|ls| - 1], l);
      SeenExactly(ls[..|ls| - 1], ls[|ls| - 1]);
      assert ls == ls[..|ls| - 1] + [ls[|ls| - 1]];
    }
  }

  /** No location is listed twice, and the order is that of first occurrence. */
  lemma {:induction false} SeenInOrder(ls: seq<Location>, i: nat, j: nat)
    requires i < j < |FirstSeen(ls)|
    ensures var (a, b) := (FirstSeen(ls)[i], FirstSeen(ls)[j]);
            a in ls && b in ls && a != b && FirstIndex(ls, a) < FirstIndex(ls, b)
  {
    hide FirstIndex;
    var before, l := ls[..|ls| - 1], ls[|ls| - 1];
    var a, b := FirstSeen(ls)[i], FirstSeen(ls)[j];
    assert ls == before + [l];
    if j < |FirstSeen(before)| {
      SeenInOrder(before, i, j);
      FirstIndexGrows(before, l, b);
    } else {
      SeenExactly(before, a);
      SeenExactly(before, b);
    }
    FirstIndexGrows(before, l, a);
  }

  lemma FirstIndexGrows(ls: seq<Location>, last: Location, l: Location)
    requires l in ls
    ensures l in ls + [last] && FirstIndex(ls + [last], l) == FirstIndex(ls, l)
  {
    var i, j := FirstIndex(ls, l), FirstIndex(ls + [last], l);
    assert (ls + [last])[i] == l;
  }

  /** What one table entry says of the device at `l`. */
  predicate Describes(b: Board, e: RoutingEntry, l: Location)
    requires b.Valid()
  {
    && e.bus == l.bus && e.device == 8 * l.device && e.slot == 0
    && |e.pins| == PINS && forall k :: 0 <= k < PINS ==> Agrees(e.pins[k], k, Translation(b, l, k))
  }

  predicate Describe(b: Board, es: seq<RoutingEntry>, ls: seq<Location>)
    requires b.Valid()
  {
    |es| == |ls| && forall i :: 0 <= i < |es| ==> Describes(b, es[i], ls[i])
  }

  /** The table's entry for a device names the device and, for each pin, the interrupt that the
      translation of the pin answers. */
  lemma EntryAnswers(b: Board, es: seq<RoutingEntry>, ls: seq<Location>, i: nat, pin: nat, n: byte)
    requires b.Valid() && Describe(b, es, ls) && i < |ls| && pin < PINS && n < 0x80
    ensures |es| == |ls| && es[i].bus == ls[i].bus && es[i].device == 8 * ls[i].device && |es[i].pins| == 4
    ensures es[i].pins[pin].irqMask == Bit(n as nat) <==> Translation(b, ls[i], pin) == Some(n)
    ensures es[i].pins[pin].pirq == if Translation(b, ls[i], pin) == None then 0 else pin + 1
  {
    hide Agrees, Translation, Bit;
    assert Describes(b, es[i], ls[i]);
    MaskNamesIrq(es[i].pins[pin], pin, Translation(b, ls[i], pin), n);
  }

  lemma DescribeAppend(b: Board, es: seq<RoutingEntry>, ls: seq<Location>, e: RoutingEntry, l: Location)
    requires b.Valid() && Describe(b, es, ls) && Describes(b, e, l)
    ensures Describe(b, es + [e], ls + [l])
  {
  }

  lemma NewEntry(b: Board, l: Location, pins: seq<PirqEntry>)
    requires b.Valid() && OnPci(l)
    requires |pins| == PINS && forall k :: 0 <= k < PINS ==> Agrees(pins[k], k, Translation(b, l, k))
    ensures Describes(b, RoutingEntry(l.bus, (l.device * 8) % 256, pins, 0), l)
  {
  }

  /** Whether one of the first `count` entries is for the device. */
  method Listed(entries: array<RoutingEntry>, count: nat, l: Location, ghost ls: seq<Location>, ghost b: Board)
    returns (found: bool)
    requires count <= entries.Length && b.Valid() && Describe(b, entries[..count], ls)
    ensures found <==> l in ls
  {
    hide Agrees, Translation;
    var i := 0;
    while i < count
      invariant 0 <= i <= count && l !in ls[..i]
    {
      assert Describes(b, entries[..count][i], ls[i]);
      if entries[i].bus == l.bus && entries[i].device == 8 * l.device {
        return true;
      }
      i := i + 1;
    }
    assert ls[..i] == ls;
    found := false;
  }

  /** GetRoutingTable, from the locations of all PCI functions: one entry for each distinct device, in
      first-seen order, with every pin as TranslatePirq answers it. */
  method GetRoutingTable(b: Board, handles: seq<Location>)
    returns (entries: array<RoutingEntry>, count: nat, tableSize: nat)
    requires b.Usable() && (forall l :: l in handles ==> OnPci(l))
    requires 0x20 + 0x10 * |FirstSeen(handles)| <= 0xE00
    ensures fresh(entries) && count <= entries.Length && Describe(b, entries[..count], FirstSeen(handles))
    ensures tableSize == 0x20 + 0x10 * count <= 0xE00
  {
    hide Describe, Describes, FirstSeen, Agrees, Translation, OnPci;
    entries := new RoutingEntry[CAPACITY](i => RoutingEntry(0, 0, [], 0));
    count := 0;
    var index := 0;
    NothingSeen(b);
    while index < |handles|
      invariant 0 <= index <= |handles|
      invariant count == |FirstSeen(handles[..index])| <= CAPACITY
      invariant Describe(b, entries[..count], FirstSeen(handles[..index]))
    {
      var l := handles[index];
      SeenStep(handles, index);
      var flagNext := Listed(entries, count, l, FirstSeen(handles[..index]), b);
      index := index + 1;
      if flagNext {
        continue;
      }
      var pins := FillPins(b, l);
      NewEntry(b, l, pins);
      var e := RoutingEntry(l.bus, (l.device * 8) % 256, pins, 0);
      DescribeAppend(b, entries[..count], FirstSeen(handles[..index - 1]), e, l);
      entries[count] := e;
      count := count + 1;
      assert entries[..count] == entries[..count - 1] + [e];
    }
    assert handles[..index] == handles;
    tableSize := HEADER_BYTES + ENTRY_BYTES * count;
  }

  lemma NothingSeen(b: Board)
    requires b.Valid()
    ensures FirstSeen([]) == [] && Describe(b, [], [])
  {
  }

  lemma SeenStep(ls: seq<Location>, at: nat)
    requires at < |ls|
    ensures var (before, after) := (FirstSeen(ls[..at]), FirstSeen(ls[..at + 1]));
            && after == (if ls[at] in before then before else before + [ls[at]])
            && |after| <= |FirstSeen(ls)|
  {
    assert ls[..at + 1][..at] == ls[..at];
    SeenGrows(ls, at + 1);
  }

  lemma {:induction false} SeenGrows(ls: seq<Location>, at: nat)
    requires at <= |ls|
    ensures |FirstSeen(ls[..at])| <= |FirstSeen(ls)|
  {
    if at == |ls| {
      assert ls[..at] == ls;
    } else {
      SeenGrows(ls[..|ls| - 1], at);
      assert ls[..|ls| - 1][..at] == ls[..at];
    }
  }
}
