/**
  Bytes, fixed-width little-endian fields and the flash geometry shared by every layer.
  Bytes are bit-vectors, because NOR programming and CRC-32 are bitwise; lengths, offsets and
  block numbers are integers bounded by the width of the field that stores them.
 */
module Bytes {
  type byte = bv8
  type u16 = x: nat | x < 0x1_0000
  type u32 = x: nat | x < 0x1_0000_0000
  type u64 = x: nat | x < 0x1_0000_0000_0000_0000

  const BLOCK_SIZE: nat := 0x10000
  const BLOCK_COUNT: nat := 0x200
  const BLANK: byte := 0xFF

  datatype Option<+T> = None | Some(value: T)

  function Max(a: nat, b: nat): nat { if a < b then b else a }

  function Min(a: nat, b: nat): nat { if a < b then a else b }

  /** `n` copies of one byte. */
  function Repeat(b: byte, n: nat): (s: seq<byte>)
    ensures |s| == n && forall i :: 0 <= i < n ==> s[i] == b
  {
    seq(n, i => b)
  }

  function Pow256(n: nat): nat { if n == 0 then 1 else 256 * Pow256(n - 1) }

  /** The `n` low-order bytes of `v`, least significant first. */
  function LittleEndian(v: nat, n: nat): (s: seq<byte>)
    ensures |s| == n
  {
    if n == 0 then [] else [(v % 256) as byte] + LittleEndian(v / 256, n - 1)
  }

  function Value(s: seq<byte>): nat
  {
    if s == [] then 0 else s[0] as nat + 256 * Value(s[1..])
  }

  lemma NatOfByte(b: byte)
    ensures (b as nat) < 256 && (b as nat) as byte == b
  {}

  lemma ByteSuccessor(b: byte)
    requires b != 0xFF
    ensures (b + 1) as nat == b as nat + 1
  {}

  lemma LargestByte(b: byte)
    ensures (b as nat) < 255 ==> b != 0xFF
  {}

  lemma {:induction false} ByteWithValue(n: nat) returns (b: byte)
    requires n < 256
    ensures b as nat == n
  {
    if n == 0 {
      b := 0;
    } else {
      var p := ByteWithValue(n - 1);
      LargestByte(p);
      ByteSuccessor(p);
      b := p + 1;
    }
  }

  lemma ByteOfNat(n: nat)
    requires n < 256
    ensures (n as byte) as nat == n
  {
    var b := ByteWithValue(n);
    NatOfByte(b);
  }

  lemma DivMod256(low: nat, high: nat)
    requires low < 256
    ensures (low + 256 * high) % 256 == low && (low + 256 * high) / 256 == high
  {}

  lemma {:induction false} ValueOfLittleEndian(v: nat, n: nat)
    requires v < Pow256(n)
    ensures Value(LittleEndian(v, n)) == v
  {
    if n > 0 {
      ByteOfNat(v % 256);
      ValueOfLittleEndian(v / 256, n - 1);
      assert LittleEndian(v, n)[1..] == LittleEndian(v / 256, n - 1);
    }
  }

  lemma {:induction false} LittleEndianOfValue(s: seq<byte>)
    ensures Value(s) < Pow256(|s|)
    ensures LittleEndian(Value(s), |s|) == s
  {
    if s != [] {
      LittleEndianOfValue(s[1..]);
      var low, high := s[0] as nat, Value(s[1..]);
      NatOfByte(s[0]);
      DivMod256(low, high);
      assert [low as byte] + s[1..] == s;
    }
  }

  lemma PowersOf256()
    ensures Pow256(2) == 0x1_0000
    ensures Pow256(4) == 0x1_0000_0000
    ensures Pow256(8) == 0x1_0000_0000_0000_0000
  {}

  /** Reading a field back: the value of `width` bytes at `offset`. */
  function Get(s: seq<byte>, offset: nat, width: nat): nat
    requires offset + width <= |s|
  {
    Value(s[offset..offset + width])
  }

  function Get16(s: seq<byte>, offset: nat): u16
    requires offset + 2 <= |s|
  {
    PowersOf256(); LittleEndianOfValue(s[offset..offset + 2]);
    Get(s, offset, 2)
  }

  function Get32(s: seq<byte>, offset: nat): u32
    requires offset + 4 <= |s|
  {
    PowersOf256(); LittleEndianOfValue(s[offset..offset + 4]);
    Get(s, offset, 4)
  }

  function Get64(s: seq<byte>, offset: nat): u64
    requires offset + 8 <= |s|
  {
    PowersOf256(); LittleEndianOfValue(s[offset..offset + 8]);
    Get(s, offset, 8)
  }

  function Put16(v: u16): (s: seq<byte>) ensures |s| == 2 { LittleEndian(v, 2) }
  function Put32(v: u32): (s: seq<byte>) ensures |s| == 4 { LittleEndian(v, 4) }
  function Put64(v: u64): (s: seq<byte>) ensures |s| == 8 { LittleEndian(v, 8) }

  /** A stored 16-bit field reads back as the value that was put there. */
  lemma Field16(s: seq<byte>, offset: nat, v: u16)
    requires offset + 2 <= |s| && s[offset..offset + 2] == Put16(v)
    ensures Get16(s, offset) == v
  {
    PowersOf256(); ValueOfLittleEndian(v, 2);
  }

  /** A stored 32-bit field reads back as the value that was put there. */
  lemma Field32(s: seq<byte>, offset: nat, v: u32)
    requires offset + 4 <= |s| && s[offset..offset + 4] == Put32(v)
    ensures Get32(s, offset) == v
  {
    PowersOf256(); ValueOfLittleEndian(v, 4);
  }

  /** A stored 64-bit field reads back as the value that was put there. */
  lemma Field64(s: seq<byte>, offset: nat, v: u64)
    requires offset + 8 <= |s| && s[offset..offset + 8] == Put64(v)
    ensures Get64(s, offset) == v
  {
    PowersOf256(); ValueOfLittleEndian(v, 8);
  }

  /** Checksums stay bit-vectors; their four bytes are cut out by shifting. */
  function PutCrc(c: bv32): (s: seq<byte>)
    ensures |s| == 4
  {
    [(c & 0xFF) as byte, ((c >> 8) & 0xFF) as byte, ((c >> 16) & 0xFF) as byte, ((c >> 24) & 0xFF) as byte]
  }

  function GetCrc(s: seq<byte>, offset: nat): bv32
    requires offset + 4 <= |s|
  {
    Word(s[offset], s[offset + 1], s[offset + 2], s[offset + 3])
  }

  lemma FieldCrc(s: seq<byte>, offset: nat, c: bv32)
    requires offset + 4 <= |s| && s[offset..offset + 4] == PutCrc(c)
    ensures GetCrc(s, offset) == c
  {}

  /** Different stored checksum bytes are different checksums. */
  lemma GetCrcInjective(s: seq<byte>, t: seq<byte>, offset: nat)
    requires offset + 4 <= |s| && offset + 4 <= |t|
    requires GetCrc(s, offset) == GetCrc(t, offset)
    ensures s[offset..offset + 4] == t[offset..offset + 4]
  {}

  function Word(a: byte, b: byte, c: byte, d: byte): bv32
  {
    (a as bv32) | ((b as bv32) << 8) | ((c as bv32) << 16) | ((d as bv32) << 24)
  }

  lemma WordInjective(a: byte, b: byte, c: byte, d: byte, a': byte, b': byte, c': byte, d': byte)
    requires Word(a, b, c, d) == Word(a', b', c', d')
    ensures a == a' && b == b' && c == c' && d == d'
  {}

  /** `s` with `source` written over it at `offset`. */
  function Splice(s: seq<byte>, offset: nat, source: seq<byte>): (r: seq<byte>)
    requires offset + |source| <= |s|
    ensures |r| == |s|
    ensures r[offset..offset + |source|] == source
    ensures r[..offset] == s[..offset] && r[offset + |source|..] == s[offset + |source|..]
  {
    s[..offset] + source + s[offset + |source|..]
  }

  /** A write leaves every slice outside it as it was. */
  lemma SpliceOutside(s: seq<byte>, offset: nat, source: seq<byte>, lo: nat, hi: nat)
    requires offset + |source| <= |s| && lo <= hi <= |s|
    requires hi <= offset || offset + |source| <= lo
    ensures Splice(s, offset, source)[lo..hi] == s[lo..hi]
  {}

  lemma ConcatAssociative<T>(a: seq<T>, b: seq<T>, c: seq<T>)
    ensures a + b + c == a + (b + c)
  {}

  /** A slice of a slice, counted from the outside. */
  lemma SliceOfSlice(s: seq<byte>, start: nat, part: seq<byte>, lo: nat, hi: nat)
    requires lo <= hi <= |part| && start + |part| <= |s| && s[start..start + |part|] == part
    ensures s[start + lo..start + hi] == part[lo..hi]
  {
    forall k | 0 <= k < hi - lo
      ensures s[start + lo..start + hi][k] == part[lo..hi][k]
    {
      assert part[lo + k] == s[start..start + |part|][lo + k];
    }
  }

  /** A write inside an earlier write. */
  lemma SpliceSplice(s: seq<byte>, offset: nat, a: seq<byte>, inner: nat, b: seq<byte>)
    requires offset + |a| <= |s| && inner + |b| <= |a|
    ensures Splice(Splice(s, offset, a), offset + inner, b) == Splice(s, offset, Splice(a, inner, b))
  {}

  /** Copies `source` into `buffer` at `offset`; nothing else in the buffer moves. */
  method CopyInto(buffer: array<byte>, offset: nat, source: seq<byte>)
    requires offset + |source| <= buffer.Length
    modifies buffer
    ensures buffer[..] == Splice(old(buffer[..]), offset, source)
  {
    var i := 0;
    while i < |source|
      invariant 0 <= i <= |source|
      invariant forall k :: 0 <= k < buffer.Length ==>
        buffer[k] == if offset <= k < offset + i then source[k - offset] else old(buffer[k])
    {
      buffer[offset + i] := source[i];
      i := i + 1;
    }
  }

  /** Stores `value` in `width` bytes, low byte first, one byte per turn. */
  method PutField(buffer: array<byte>, offset: nat, value: nat, width: nat)
    requires offset + width <= buffer.Length
    modifies buffer
    ensures buffer[..] == Splice(old(buffer[..]), offset, LittleEndian(value, width))
  {
    var i, rest := 0, value;
    ghost var field := LittleEndian(value, width);
    while i < width
      invariant 0 <= i <= width
      invariant field[i..] == LittleEndian(rest, width - i)
      invariant forall k :: 0 <= k < buffer.Length ==>
        buffer[k] == if offset <= k < offset + i then field[k - offset] else old(buffer[k])
    {
      assert field[i] == field[i..][0];
      buffer[offset + i] := (rest % 256) as byte;
      assert field[i + 1..] == field[i..][1..];
      rest := rest / 256;
      i := i + 1;
    }
  }
}
