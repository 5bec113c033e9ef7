/** Firmware volume headers as bytes (section 3.2.1 of the PI Specification, Volume 3): validation,
    the NV-storage template, and the checksum that makes a header valid again. */
module FvbHeader {
  import opened Bytes
  import opened Nor
  import opened BlockMap

  /** sizeof (EFI_FIRMWARE_VOLUME_HEADER), one block map entry included. */
  const HEADER_SIZE: nat := 64

  const LENGTH_AT: nat := 48
  const CHECKSUM_AT: nat := 50
  const MAP_AT: nat := 56

  /** "_FVH" */
  const SIGNATURE: seq<byte> := [0x5F, 0x46, 0x56, 0x48]
  const REVISION: byte := 2

  /** The sum of the first `n` 16-bit words, without wrapping. */
  function WordSum(s: seq<byte>, n: nat): nat
    requires 2 * n <= |s|
  {
    if n == 0 then 0 else WordSum(s, n - 1) + Word(s[2 * n - 2], s[2 * n - 1])
  }

  function HeaderLength(mem: seq<byte>, at: nat): nat
    requires at + HEADER_SIZE <= |mem|
  {
    FromLe(mem[at + LENGTH_AT..at + CHECKSUM_AT])
  }

  predicate FieldsOk(mem: seq<byte>, at: nat)
    requires at + HEADER_SIZE <= |mem|
  {
    && mem[at + 55] == REVISION
    && mem[at + 40..at + 44] == SIGNATURE
    && FromLe(mem[at + 32..at + 40]) != U64 - 1
    && HeaderLength(mem, at) % 2 == 0
  }

  /** The bytes that validation looks at can be read at `at`. */
  predicate HeaderReadable(mem: seq<byte>, at: nat) {
    at + HEADER_SIZE <= |mem| && (FieldsOk(mem, at) ==> at + HeaderLength(mem, at) <= |mem|)
  }

  predicate ValidHeader(mem: seq<byte>, at: nat)
    requires HeaderReadable(mem, at)
  {
    && FieldsOk(mem, at)
    && WordSum(HeaderAt(mem, at), HeaderLength(mem, at) / 2) % 0x1_0000 == 0
  }

  /** The header at `at`, as many bytes as its length field says. */
  function HeaderAt(mem: seq<byte>, at: nat): seq<byte>
    requires at + HEADER_SIZE <= |mem| && at + HeaderLength(mem, at) <= |mem|
  {
    mem[at..at + HeaderLength(mem, at)]
  }

  /** A header is valid exactly if its revision is 2, it carries the signature "_FVH", its volume length is
      not all ones, its own length is even, and its words sum to zero in 16 bits. */
  lemma ValidExactly(mem: seq<byte>, at: nat, length: nat)
    requires at + 64 <= |mem| && length == mem[at + 48] as int + 256 * mem[at + 49] as int && at + length <= |mem|
    ensures HeaderReadable(mem, at)
    ensures ValidHeader(mem, at) <==>
              && mem[at + 55] == 2
              && (forall i :: 0 <= i < 4 ==> mem[at + 40 + i] as int == "_FVH"[i] as int)
              && FromLe(mem[at + 32..at + 40]) != 0xFFFF_FFFF_FFFF_FFFF
              && length % 2 == 0
              && WordSum(mem[at..at + length], length / 2) % 0x1_0000 == 0
  {
    hide WordSum, FromLe;
    LittleEndian(mem[at + 48], mem[at + 49], 0, 0);
    assert mem[at + 48..at + 50] == [mem[at + 48], mem[at + 49]];
    Letters(mem[at + 40..at + 44], SIGNATURE, "_FVH");
  }

  lemma NextWord(s: seq<byte>, n: nat)
    requires 2 * n + 2 <= |s|
    ensures WordSum(s, n + 1) == WordSum(s, n) + Word(s[2 * n], s[2 * n + 1])
  {
  }

  lemma NoWords(s: seq<byte>)
    ensures WordSum(s, 0) == 0
  {
  }

  /** The 16-bit running sum of ValidateFvHeader over `n` words. */
  method SumWords(mem: seq<byte>, at: nat, n: nat) returns (checksum: nat)
    requires at + 2 * n <= |mem|
    ensures checksum == WordSum(mem[at..at + 2 * n], n) % 0x1_0000
  {
    hide WordSum, Word;
    var left, ptr := n, at;
    checksum := 0;
    ghost var header := mem[at..at + 2 * n];
    ghost var read: nat := 0;
    NoWords(header);
    while left > 0
      invariant 0 <= left && left + read == n && ptr == at + 2 * read
      invariant checksum == WordSum(header, read) % 0x1_0000
    {
      NextWord(header, read);
      assert header[2 * read] == mem[ptr] && header[2 * read + 1] == mem[ptr + 1];
      AddModWord(WordSum(header, read), Word(mem[ptr], mem[ptr + 1]));
      checksum := (checksum + Word(mem[ptr], mem[ptr + 1])) % 0x1_0000;
      read := read + 1;
      left := left - 1;
      ptr := ptr + 2;
    }
  }

  lemma AddModWord(x: nat, y: nat)
    ensures (x % 0x1_0000 + y) % 0x1_0000 == (x + y) % 0x1_0000
  {
  }

  /** ValidateFvHeader. */
  method ValidateFvHeader(mem: seq<byte>, at: nat) returns (status: Status)
    requires HeaderReadable(mem, at)
    ensures status == if ValidHeader(mem, at) then Success else NotFound
  {
    hide WordSum, FromLe;
    if mem[at + 55] != REVISION || mem[at + 40..at + 44] != SIGNATURE
       || FromLe(mem[at + 32..at + 40]) == U64 - 1 || HeaderLength(mem, at) % 2 != 0 {
      return NotFound;
    }
    var checksum := SumWords(mem, at, HeaderLength(mem, at) / 2);
    return if checksum != 0 then NotFound else Success;
  }

  /** `h` with a zero checksum field. */
  function Zeroed(h: seq<byte>): (r: seq<byte>)
    requires CHECKSUM_AT + 2 <= |h|
    ensures |r| == |h|
  {
    Splice<byte>(h, CHECKSUM_AT, [0, 0])
  }

  function Negated(sum: nat): (c: nat)
    ensures c < 0x1_0000 && (sum + c) % 0x1_0000 == 0
  {
    (0x1_0000 - sum % 0x1_0000) % 0x1_0000
  }

  /** The negated 16-bit sum of a header (CalculateCheckSum16). */
  function Checksum(h: seq<byte>): (c: nat)
    ensures c < 0x1_0000 && (WordSum(h, |h| / 2) + c) % 0x1_0000 == 0
  {
    Negated(WordSum(h, |h| / 2))
  }

  /** `h` with its checksum field recomputed. */
  function WithChecksum(h: seq<byte>): (r: seq<byte>)
    requires CHECKSUM_AT + 2 <= |h|
    ensures |r| == |h|
  {
    Splice<byte>(Zeroed(h), CHECKSUM_AT, Le(Checksum(Zeroed(h)), 2))
  }

  /** Replacing one word moves the sum by the difference of the words. */
  lemma {:induction false} SpliceWordSum(h: seq<byte>, k: nat, word: seq<byte>, n: nat)
    requires 2 * n <= |h| && 2 * k + 2 <= |h| && |word| == 2
    ensures WordSum(Splice<byte>(h, 2 * k, word), n)
         == if n <= k then WordSum(h, n)
            else WordSum(h, n) - Word(h[2 * k], h[2 * k + 1]) + Word(word[0], word[1])
  {
    if n == 0 {
    } else {
      SpliceWordSum(h, k, word, n - 1);
    }
  }

  lemma LeWord(v: nat)
    requires v < 0x1_0000
    ensures Word(Le(v, 2)[0], Le(v, 2)[1]) == v
  {
  }

  lemma ZeroedWord(h: seq<byte>)
    requires CHECKSUM_AT + 2 <= |h|
    ensures Word(Zeroed(h)[CHECKSUM_AT], Zeroed(h)[CHECKSUM_AT + 1]) == 0
  {
  }

  lemma PatchedSum(z: seq<byte>, word: seq<byte>)
    requires 52 <= |z| && |word| == 2
    requires Word(z[50], z[51]) == 0 && Word(word[0], word[1]) == Checksum(z)
    ensures WordSum(Splice<byte>(z, 50, word), |z| / 2) % 0x1_0000 == 0
  {
    hide Word, Checksum, Splice;
    SpliceWordSum(z, 25, word, |z| / 2);
  }

  /** A header with its checksum recomputed sums to zero. */
  lemma ChecksumBalances(h: seq<byte>)
    requires CHECKSUM_AT + 2 <= |h|
    ensures WordSum(WithChecksum(h), |h| / 2) % 0x1_0000 == 0
  {
    hide Zeroed, Word, Checksum, Splice;
    ZeroedWord(h);
    LeWord(Checksum(Zeroed(h)));
    PatchedSum(Zeroed(h), Le(Checksum(Zeroed(h)), 2));
  }

  /** Nothing but the checksum field is recomputed. */
  lemma ChecksumOnly(mem: seq<byte>, at: nat, h: seq<byte>)
    requires CHECKSUM_AT + 2 <= |h| && at + |h| <= |mem| && mem[at..at + |h|] == WithChecksum(h)
    ensures forall i :: 0 <= i < |h| && i != 50 && i != 51 ==> mem[at + i] == h[i]
  {
    hide Checksum, Le;
    var r := WithChecksum(h);
    forall i | 0 <= i < |h| && i != 50 && i != 51 ensures mem[at + i] == h[i] {
      assert mem[at + i] == r[i];
    }
  }

  /** A header image that passes the field checks and covers itself. */
  predicate HeaderOk(h: seq<byte>) {
    && |h| >= HEADER_SIZE
    && HeaderLength(h, 0) == |h|
    && FieldsOk(h, 0)
  }

  /** Wherever a repaired header lies in an image, the header there is valid. */
  lemma RepairedIsValid(mem: seq<byte>, at: nat, h: seq<byte>)
    requires HeaderOk(h) && at + |h| <= |mem| && mem[at..at + |h|] == WithChecksum(h)
    ensures HeaderReadable(mem, at) && HeaderLength(mem, at) == |h| && ValidHeader(mem, at)
  {
    var r := WithChecksum(h);
    forall i | 0 <= i < |h| && !(CHECKSUM_AT <= i < CHECKSUM_AT + 2) ensures mem[at + i] == h[i] {
      assert mem[at + i] == r[i];
    }
    assert mem[at + LENGTH_AT..at + CHECKSUM_AT] == h[LENGTH_AT..CHECKSUM_AT];
    assert mem[at + 40..at + 44] == h[40..44];
    assert mem[at + 32..at + 40] == h[32..40];
    ChecksumBalances(h);
  }

  /** Validation refuses a header in which one word behind the valid ones was changed: no single word,
      other than those that say where the header ends, can be corrupted unnoticed. */
  lemma CorruptionIsRefused(h: seq<byte>, k: nat, word: seq<byte>)
    requires HeaderOk(h) && ValidHeader(h, 0) && 2 * k + 2 <= |h| && |word| == 2
    requires 2 * k != LENGTH_AT && Word(word[0], word[1]) != Word(h[2 * k], h[2 * k + 1])
    ensures var c := Splice<byte>(h, 2 * k, word); HeaderReadable(c, 0) && !ValidHeader(c, 0)
  {
    hide Word, FromLe;
    var c := Splice<byte>(h, 2 * k, word);
    assert c[LENGTH_AT..CHECKSUM_AT] == h[LENGTH_AT..CHECKSUM_AT];
    SpliceWordSum(h, k, word, |h| / 2);
    WordBounds(word[0], word[1]);
    WordBounds(h[2 * k], h[2 * k + 1]);
    assert HeaderAt(h, 0) == h && HeaderAt(c, 0) == c;
    Shifted(WordSum(h, |h| / 2), Word(word[0], word[1]) - Word(h[2 * k], h[2 * k + 1]));
  }

  lemma WordBounds(lo: byte, hi: byte)
    ensures Word(lo, hi) < 0x1_0000
  {
  }

  lemma Shifted(sum: nat, d: int)
    requires sum % 0x1_0000 == 0 && d != 0 && -0x1_0000 < d < 0x1_0000
    ensures (sum + d) % 0x1_0000 != 0
  {
  }

  // The block map behind the fixed fields.

  function MapEntryAt(h: seq<byte>, k: nat): Entry
    requires MAP_AT + 8 * k + 8 <= |h|
  {
    Entry(FromLe(h[MAP_AT + 8 * k..MAP_AT + 8 * k + 4]), FromLe(h[MAP_AT + 8 * k + 4..MAP_AT + 8 * k + 8]))
  }

  /** The first `n` map entries. */
  function MapUpTo(h: seq<byte>, n: nat): (m: seq<Entry>)
    requires MAP_AT + 8 * n <= |h|
    ensures |m| == n && forall k {:trigger m[k]} :: 0 <= k < n ==> m[k] == MapEntryAt(h, k)
  {
    if n == 0 then [] else MapUpTo(h, n - 1) + [MapEntryAt(h, n - 1)]
  }

  /** All map entries that lie inside the header. */
  function MapOf(h: seq<byte>): seq<Entry> {
    if |h| < MAP_AT then [] else MapUpTo(h, (|h| - MAP_AT) / 8)
  }

  /** The map has a zero block count, at which the counting loop of FvbInitialize stops. */
  predicate CountEnds(m: seq<Entry>) {
    exists i :: 0 <= i < |m| && m[i].numBlocks == 0
  }

  /** The sum that the counting loop forms: it looks at block counts only. */
  function Count(m: seq<Entry>): nat {
    if m == [] || m[0].numBlocks == 0 then 0 else m[0].numBlocks + Count(m[1..])
  }

  /** No entry before the zero count has length zero. */
  predicate NoEmptyBlocks(m: seq<Entry>) {
    m == [] || m[0].numBlocks == 0 || (m[0].length != 0 && NoEmptyBlocks(m[1..]))
  }

  /** The count stored at initialisation is the number of blocks that the address walk can reach
      exactly when no map entry has blocks of length zero; otherwise it is larger. */
  lemma {:induction false} CountMatchesWalk(m: seq<Entry>, entry: nat := 0)
    ensures Count(m) >= |Blocks(m, entry)|
    ensures Count(m) == |Blocks(m, entry)| <==> NoEmptyBlocks(m)
  {
    if m == [] || m[0].numBlocks == 0 {
    } else {
      CountMatchesWalk(m[1..], entry + 1);
    }
  }

  // The NV-storage template of FvbInfo.c.

  datatype Pcds = Pcds(nvBase: nat, variableSize: nat, ftwWorkingSize: nat, ftwSpareSize: nat,
                       eventLogSize: nat, blockSize: nat, volumeGuid: seq<byte>, variableGuid: seq<byte>)
  {
    function Total(): nat {
      variableSize + ftwWorkingSize + ftwSpareSize + eventLogSize
    }

    function BlockCount(): nat {
      if blockSize == 0 then 0 else Total() / blockSize
    }

    /** Platform constants that the build fixes: 32-bit sizes, 16-byte GUIDs. */
    predicate Sane() {
      && Total() < 0x1_0000_0000
      && 0 < blockSize < 0x1_0000_0000
      && blockSize % SECTOR == 0
      && 0 < nvBase < U64
      && |volumeGuid| == 16
      && |variableGuid| == 16
      && TEMPLATE_SIZE <= variableSize
    }
  }

  const TEMPLATE_SIZE: nat := 72

  /** READ_ENABLED_CAP | READ_STATUS | WRITE_ENABLED_CAP | WRITE_STATUS | ERASE_POLARITY */
  const TEMPLATE_ATTRIBUTES: nat := 0x0836

  /** The header part of mPlatformFvbMediaInfo[0] with the zero entry that follows it. */
  function Template(p: Pcds): (h: seq<byte>)
    requires p.Sane()
    ensures |h| == TEMPLATE_SIZE
  {
    Le(0, 16) + p.volumeGuid + Le(p.Total(), 8) + SIGNATURE + Le(TEMPLATE_ATTRIBUTES, 4)
    + Le(TEMPLATE_SIZE, 2) + Le(0, 2) + Le(0, 2) + [0, REVISION]
    + Le(p.BlockCount(), 4) + Le(p.blockSize, 4) + Le(0, 8)
  }

  lemma Shorter(x: seq<byte>, y: seq<byte>, h: seq<byte>)
    requires x + y <= h
    ensures x <= h && h[|x|..|x| + |y|] == y
  {
  }

  lemma TemplateFields(p: Pcds)
    requires p.Sane()
    ensures var h := Template(p);
            && h[32..40] == Le(p.Total(), 8)
            && h[40..44] == SIGNATURE
            && h[44..48] == Le(TEMPLATE_ATTRIBUTES, 4)
            && h[48..50] == Le(TEMPLATE_SIZE, 2)
            && h[54..56] == [0, REVISION]
            && h[56..60] == Le(p.BlockCount(), 4)
            && h[60..64] == Le(p.blockSize, 4)
            && h[64..72] == Le(0, 8)
  {
    hide Le;
    var h := Template(p);
    var a := Le(0, 16) + p.volumeGuid;
    var b := a + Le(p.Total(), 8);
    var c := b + SIGNATURE;
    var d := c + Le(TEMPLATE_ATTRIBUTES, 4);
    var e := d + Le(TEMPLATE_SIZE, 2);
    var f := e + Le(0, 2) + Le(0, 2);
    var g := f + [0, REVISION];
    var i := g + Le(p.BlockCount(), 4);
    var j := i + Le(p.blockSize, 4);
    assert h == j + Le(0, 8);
    Shorter(j, Le(0, 8), h);
    Shorter(i, Le(p.blockSize, 4), h);
    Shorter(g, Le(p.BlockCount(), 4), h);
    Shorter(f, [0, REVISION], h);
    Shorter(e + Le(0, 2), Le(0, 2), h);
    Shorter(e, Le(0, 2), h);
    Shorter(d, Le(TEMPLATE_SIZE, 2), h);
    Shorter(c, Le(TEMPLATE_ATTRIBUTES, 4), h);
    Shorter(b, SIGNATURE, h);
    Shorter(a, Le(p.Total(), 8), h);
  }

  /** The template passes every check but the checksum. */
  lemma TemplateOk(p: Pcds)
    requires p.Sane()
    ensures HeaderOk(Template(p))
  {
    hide Template, Le;
    var h := Template(p);
    TemplateFields(p);
    assert h[55] == h[54..56][1];
    Limits();
    LeRoundTrip(p.Total(), 8);
    LeRoundTrip(TEMPLATE_SIZE, 2);
  }

  lemma EntryRoundTrip(h: seq<byte>, k: nat, e: Entry)
    requires MAP_AT + 8 * k + 8 <= |h| && e.numBlocks < 0x1_0000_0000 && e.length < 0x1_0000_0000
    requires h[MAP_AT + 8 * k..MAP_AT + 8 * k + 4] == Le(e.numBlocks, 4)
    requires h[MAP_AT + 8 * k + 4..MAP_AT + 8 * k + 8] == Le(e.length, 4)
    ensures MapEntryAt(h, k) == e
  {
    Limits();
    LeRoundTrip(e.numBlocks, 4);
    LeRoundTrip(e.length, 4);
  }

  lemma BlockCountFits(p: Pcds)
    requires p.Sane()
    ensures p.BlockCount() < 0x1_0000_0000
  {
  }

  /** Its block map is one run of equal blocks and the terminator. */
  lemma TemplateMap(p: Pcds)
    requires p.Sane()
    ensures MapOf(Template(p)) == [Entry(p.BlockCount(), p.blockSize), Entry(0, 0)]
  {
    hide Template, Le, MapEntryAt;
    var h := Template(p);
    TemplateFields(p);
    ZeroHalves(h);
    BlockCountFits(p);
    EntryRoundTrip(h, 0, Entry(p.BlockCount(), p.blockSize));
    EntryRoundTrip(h, 1, Entry(0, 0));
    assert MapUpTo(h, 1) == MapUpTo(h, 0) + [MapEntryAt(h, 0)];
  }

  lemma ZeroHalves(h: seq<byte>)
    requires |h| == 72 && h[64..72] == Le(0, 8)
    ensures h[64..68] == Le(0, 4) && h[68..72] == Le(0, 4)
  {
    ZeroLe(8);
    ZeroLe(4);
    forall i | 64 <= i < 72 ensures h[i] == 0 {
      assert h[i] == h[64..72][i - 64];
    }
  }

  lemma {:induction false} ZeroLe(n: nat)
    ensures forall i {:trigger Le(0, n)[i]} :: 0 <= i < n ==> Le(0, n)[i] == 0
  {
    if n == 0 {
    } else {
      ZeroLe(n - 1);
    }
  }
}
