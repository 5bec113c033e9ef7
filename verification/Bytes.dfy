/** Bytes, little-endian fields, and splicing of byte images. */
module Bytes {
  type byte = x: int | 0 <= x < 256

  const U32: nat := 0x1_0000_0000
  const U64: nat := 0x1_0000_0000_0000_0000

  function Min(a: nat, b: nat): nat {
    if a <= b then a else b
  }

  function Max(a: nat, b: nat): nat {
    if a >= b then a else b
  }

  datatype Option<+T> = None | Some(value: T)

  /** `image` with the bytes from `at` on replaced by `patch`; the length never changes. */
  function Splice<T>(image: seq<T>, at: nat, patch: seq<T>): (r: seq<T>)
    requires at + |patch| <= |image|
    ensures |r| == |image|
    ensures forall i {:trigger r[i]} :: 0 <= i < |r| ==>
              r[i] == if at <= i < at + |patch| then patch[i - at] else image[i]
  {
    image[..at] + patch + image[at + |patch|..]
  }

  /** Two images of one length agree outside [at, at + len). */
  ghost predicate SameOutside<T>(a: seq<T>, b: seq<T>, at: int, len: int) {
    && |a| == |b|
    && forall i {:trigger a[i]} {:trigger b[i]} :: 0 <= i < |a| && !(at <= i < at + len) ==> a[i] == b[i]
  }

  lemma SameOutsideTrans<T>(a: seq<T>, b: seq<T>, c: seq<T>, at: int, len: int, small: int)
    requires SameOutside(a, b, at, len) && SameOutside(b, c, at, small) && small <= len
    ensures SameOutside(a, c, at, len)
  {
  }

  lemma SliceOfSlice<T>(s: seq<T>, from: nat, len: nat, offset: nat, n: nat)
    requires from + len <= |s| && offset + n <= len
    ensures s[from..from + len][offset..offset + n] == s[from + offset..from + offset + n]
  {
    var a, b := s[from..from + len][offset..offset + n], s[from + offset..from + offset + n];
    assert |a| == |b| && forall j :: 0 <= j < n ==> a[j] == b[j];
  }

  lemma SpliceWindow<T>(image: seq<T>, at: nat, patch: seq<T>, lo: nat, hi: nat)
    requires at + |patch| <= |image| && lo <= hi <= |patch|
    ensures Splice(image, at, patch)[at + lo..at + hi] == patch[lo..hi]
  {
  }

  lemma SpliceElsewhere<T>(image: seq<T>, at: nat, patch: seq<T>, lo: nat, hi: nat)
    requires at + |patch| <= |image| && lo <= hi <= |image|
    requires hi <= at || at + |patch| <= lo
    ensures Splice(image, at, patch)[lo..hi] == image[lo..hi]
  {
  }

  /** CopyMem into a buffer. */
  method Put(a: array<byte>, at: nat, s: seq<byte>)
    requires at + |s| <= a.Length
    modifies a
    ensures a[..] == Splice(old(a[..]), at, s)
  {
    forall i | 0 <= i < |s| {
      a[at + i] := s[i];
    }
  }

  lemma SliceJoin<T>(s: seq<T>, a: nat, b: nat, c: nat)
    requires a <= b <= c <= |s|
    ensures s[a..b] + s[b..c] == s[a..c]
  {
  }

  /** Bitwise AND of two bytes, bit by bit from the low end. */
  function And(a: nat, b: nat): (r: nat)
    ensures r <= a && r <= b
  {
    if a == 0 || b == 0 then 0
    else (a % 2) * (b % 2) + 2 * And(a / 2, b / 2)
  }

  function AndBytes(a: seq<byte>, b: seq<byte>): (r: seq<byte>)
    requires |a| == |b|
    ensures |r| == |a| && forall i {:trigger r[i]} :: 0 <= i < |r| ==> r[i] == And(a[i], b[i])
  {
    seq(|a|, i requires 0 <= i < |a| => And(a[i], b[i]) as byte)
  }

  /** Binary digit `k` of `n`. */
  function Digit(n: nat, k: nat): nat {
    if k == 0 then n % 2 else Digit(n / 2, k - 1)
  }

  lemma {:induction false} NoDigits(k: nat)
    ensures Digit(0, k) == 0
  {
    if k == 0 {
    } else {
      NoDigits(k - 1);
    }
  }

  lemma OneDigit(a: nat, b: nat)
    ensures 0 <= (a % 2) * (b % 2) <= 1
    ensures (a % 2) * (b % 2) == 1 <==> a % 2 == 1 && b % 2 == 1
  {
    if a % 2 == 0 {
    } else if b % 2 == 0 {
    }
  }

  /** Programming can only clear bits: a digit of the result is set exactly if it is set in both. */
  lemma {:induction false} AndDigits(a: nat, b: nat, k: nat)
    ensures Digit(And(a, b), k) == 1 <==> Digit(a, k) == 1 && Digit(b, k) == 1
  {
    if a == 0 || b == 0 {
      NoDigits(k);
    } else {
      OneDigit(a, b);
      assert And(a, b) / 2 == And(a / 2, b / 2) && And(a, b) % 2 == (a % 2) * (b % 2);
      if k > 0 {
        AndDigits(a / 2, b / 2, k - 1);
      }
    }
  }

  function Ones(n: nat): (r: seq<byte>)
    ensures |r| == n && forall i {:trigger r[i]} :: 0 <= i < n ==> r[i] == 0xFF
  {
    seq(n, _ => 0xFF)
  }

  /** Every binary digit of `m` is 1. */
  predicate AllOnes(m: nat) {
    m == 0 || (m % 2 == 1 && AllOnes(m / 2))
  }

  lemma {:induction false} AndMask(m: nat, x: nat)
    requires AllOnes(m) && x <= m
    ensures And(m, x) == x
  {
    if x == 0 {
    } else {
      AndMask(m / 2, x / 2);
    }
  }

  lemma AndOnes(x: byte)
    ensures And(0xFF, x) == x
  {
    assert AllOnes(0x0F);
    assert AllOnes(0xFF);
    AndMask(0xFF, x);
  }

  lemma AndBytesOnes(data: seq<byte>)
    ensures AndBytes(Ones(|data|), data) == data
  {
    forall i | 0 <= i < |data| ensures AndBytes(Ones(|data|), data)[i] == data[i] {
      AndOnes(data[i]);
    }
  }

  /** A little-endian 16-bit word. */
  function Word(lo: byte, hi: byte): nat {
    lo as int + 256 * (hi as int)
  }

  /** The `n` low-order bytes of `v`, least significant first. */
  function Le(v: nat, n: nat): (r: seq<byte>)
    ensures |r| == n
  {
    if n == 0 then [] else [(v % 256) as byte] + Le(v / 256, n - 1)
  }

  function FromLe(s: seq<byte>): nat {
    if s == [] then 0 else s[0] + 256 * FromLe(s[1..])
  }

  /** One past the largest value `n` bytes hold. */
  function Limit(n: nat): (r: nat)
    ensures r > 0
  {
    if n == 0 then 1 else 256 * Limit(n - 1)
  }

  lemma {:induction false} LeRoundTrip(v: nat, n: nat)
    requires v < Limit(n)
    ensures FromLe(Le(v, n)) == v
  {
    if n == 0 {
    } else {
      LeRoundTrip(v / 256, n - 1);
      assert Le(v, n)[1..] == Le(v / 256, n - 1);
    }
  }

  lemma FromLeStep(a: byte, rest: seq<byte>)
    ensures FromLe([a] + rest) == a + 0x100 * FromLe(rest)
  {
    assert ([a] + rest)[1..] == rest;
  }

  /** A field is made up of its bytes, least significant first. */
  lemma LittleEndian(a: byte, b: byte, c: byte, d: byte)
    ensures FromLe([a, b]) == a + 0x100 * b == Word(a, b)
    ensures FromLe([a, b, c, d]) == a + 0x100 * b + 0x1_0000 * c + 0x100_0000 * d
  {
    hide FromLe;
    FromLeEmpty();
    FromLeStep(d, []);
    FromLeStep(c, [d]);
    FromLeStep(b, [c, d]);
    FromLeStep(a, [b, c, d]);
    FromLeStep(b, []);
    FromLeStep(a, [b]);
    assert [c] + [d] == [c, d] && [b] + [c, d] == [b, c, d] && [a] + [b, c, d] == [a, b, c, d];
    assert [d] + [] == [d] && [b] + [] == [b] && [a] + [b] == [a, b];
  }

  /** Bytes that are the codes of a text. */
  lemma Letters(b: seq<byte>, codes: seq<byte>, text: string)
    requires |b| == |codes| == |text| && forall i :: 0 <= i < |text| ==> codes[i] as int == text[i] as int
    ensures b == codes <==> forall i :: 0 <= i < |text| ==> b[i] as int == text[i] as int
  {
    if b == codes {
    } else {
      var i :| 0 <= i < |b| && b[i] != codes[i];
      assert b[i] as int != text[i] as int;
    }
  }

  lemma FromLeEmpty()
    ensures FromLe([]) == 0
  {
  }

  lemma {:induction false} FromLeBound(s: seq<byte>)
    ensures FromLe(s) < Limit(|s|)
  {
    if s == [] {
    } else {
      FromLeBound(s[1..]);
    }
  }

  lemma Limits()
    ensures Limit(2) == 0x1_0000 && Limit(4) == 0x1_0000_0000 && Limit(8) == 0x1_0000_0000_0000_0000
  {
  }

  /** Sum of the first `n` bytes. */
  function ByteSum(s: seq<byte>, n: nat): nat
    requires n <= |s|
  {
    if n == 0 then 0 else ByteSum(s, n - 1) + s[n - 1] as int
  }

  /** No bytes sum to zero, two to their sum. */
  lemma ShortSums(a: byte, b: byte)
    ensures ByteSum([a, b], 0) == 0 && ByteSum([a, b], 2) == a as int + b as int
  {
    assert ByteSum([a, b], 1) == a as int;
  }

  lemma {:induction false} SumUpdate(s: seq<byte>, i: nat, v: byte, n: nat)
    requires i < |s| && n <= |s|
    ensures ByteSum(s[i := v], n) == ByteSum(s, n) + if i < n then v as int - s[i] as int else 0
  {
    if n == 0 {
    } else {
      SumUpdate(s, i, v, n - 1);
    }
  }
}
