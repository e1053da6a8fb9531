/**
  CRC-32 as computed by the bitwise loop of src/ezfa3fs_crc32.cpp, and what the filesystem
  relies on it for: it is the function of RFC 1952 section 8, and no change confined to four
  adjacent bytes goes unnoticed.
 */
module Crc32 {
  import opened Bytes

  const POLYNOMIAL: bv32 := 0xEDB88320
  const ONES: bv32 := 0xFFFFFFFF

  function BitStep(c: bv32): bv32
  {
    (c >> 1) ^ (POLYNOMIAL & (0 - (c & 1)))
  }

  function BitSteps(c: bv32, n: nat): bv32
    decreases n
  {
    if n == 0 then c else BitSteps(BitStep(c), n - 1)
  }

  function ByteStep(c: bv32, b: byte): bv32
  {
    BitSteps(c ^ (b as bv32), 8)
  }

  /** The register after feeding all of `s` to a register holding `c`. */
  function Register(c: bv32, s: seq<byte>): bv32
    decreases s
  {
    if s == [] then c else Register(ByteStep(c, s[0]), s[1..])
  }

  function Crc(s: seq<byte>): bv32
  {
    !Register(ONES, s)
  }

  method Calculate(data: seq<byte>) returns (r: bv32)
    ensures r == Crc(data)
  {
    var crc := ONES;
    var i := 0;
    while i < |data|
      invariant 0 <= i <= |data|
      invariant Register(crc, data[i..]) == Register(ONES, data)
    {
      ghost var before := crc;
      crc := crc ^ (data[i] as bv32);
      var bit := 0;
      while bit < 8
        invariant 0 <= bit <= 8
        invariant BitSteps(crc, 8 - bit) == ByteStep(before, data[i])
      {
        crc := (crc >> 1) ^ (POLYNOMIAL & (0 - (crc & 1)));
        bit := bit + 1;
      }
      assert data[i..][1..] == data[i + 1..];
      i := i + 1;
    }
    r := !crc;
  }

  // ----- The register update is a bijection on 32-bit words -----

  lemma BitStepInjective(a: bv32, b: bv32)
    requires BitStep(a) == BitStep(b)
    ensures a == b
  {}

  lemma {:induction false} BitStepsInjective(a: bv32, b: bv32, n: nat)
    requires BitSteps(a, n) == BitSteps(b, n)
    ensures a == b
    decreases n
  {
    if n > 0 {
      BitStepsInjective(BitStep(a), BitStep(b), n - 1);
      BitStepInjective(a, b);
    }
  }

  /** Kept behind a name: the solver handles chains of these, but not chains of `^`. */
  ghost predicate IsXor(z: bv32, x: bv32, y: bv32)
  {
    z == x ^ y
  }

  lemma MakeXor(c: bv32, v: bv32) returns (z: bv32)
    ensures IsXor(z, c, v)
  {
    z := c ^ v;
  }

  lemma XorFunctional(z: bv32, z': bv32, x: bv32, y: bv32)
    requires IsXor(z, x, y) && IsXor(z', x, y)
    ensures z == z'
  {}

  lemma XorCancel(z: bv32, a: bv32, b: bv32, c: bv32)
    requires IsXor(z, a, c) && IsXor(z, b, c)
    ensures a == b
  {}

  lemma ByteStepVia(z: bv32, c: bv32, x: byte)
    requires IsXor(z, c, x as bv32)
    ensures ByteStep(c, x) == BitSteps(z, 8)
  {}

  lemma ByteStepInjective(a: bv32, b: bv32, x: byte)
    requires ByteStep(a, x) == ByteStep(b, x)
    ensures a == b
  {
    var y := MakeXor(a, x as bv32);
    var z := MakeXor(b, x as bv32);
    ByteStepVia(y, a, x); ByteStepVia(z, b, x);
    BitStepsInjective(y, z, 8);
    XorCancel(y, a, b, x as bv32);
  }

  lemma {:induction false} RegisterInjective(a: bv32, b: bv32, s: seq<byte>)
    requires Register(a, s) == Register(b, s)
    ensures a == b
    decreases s
  {
    if s != [] {
      RegisterInjective(ByteStep(a, s[0]), ByteStep(b, s[0]), s[1..]);
      ByteStepInjective(a, b, s[0]);
    }
  }

  /** The register value that one bit step turns into `c`. */
  function BitStepBack(c: bv32): bv32
  {
    if c & 0x80000000 != 0 then ((c ^ POLYNOMIAL) << 1) | 1 else c << 1
  }

  lemma BitStepForth(c: bv32)
    ensures BitStep(BitStepBack(c)) == c
  {
    BitStepCases(BitStepBack(c));
    if c & 0x80000000 != 0 {
      TopCleared(c);
      ShiftBack(c ^ POLYNOMIAL);
      XorTwice(c);
    } else {
      ShiftBackEven(c);
    }
  }

  lemma TopCleared(c: bv32)
    requires c & 0x80000000 != 0
    ensures (c ^ POLYNOMIAL) & 0x80000000 == 0
  {}

  lemma ShiftBack(h: bv32)
    requires h & 0x80000000 == 0
    ensures ((h << 1) | 1) & 1 == 1 && ((h << 1) | 1) >> 1 == h
  {}

  lemma ShiftBackEven(h: bv32)
    requires h & 0x80000000 == 0
    ensures (h << 1) & 1 == 0 && (h << 1) >> 1 == h
  {}

  lemma XorTwice(c: bv32)
    ensures POLYNOMIAL ^ (c ^ POLYNOMIAL) == c
  {}

  lemma {:induction false} BitStepsReach(target: bv32, n: nat) returns (c: bv32)
    ensures BitSteps(c, n) == target
    decreases n
  {
    if n == 0 {
      c := target;
    } else {
      var d := BitStepsReach(target, n - 1);
      BitStepForth(d);
      c := BitStepBack(d);
    }
  }

  lemma ByteStepReaches(target: bv32, x: byte) returns (c: bv32)
    ensures ByteStep(c, x) == target
  {
    var z := BitStepsReach(target, 8);
    c := UndoXor(z, x as bv32);
    ByteStepVia(z, c, x);
  }

  lemma UndoXor(z: bv32, v: bv32) returns (c: bv32)
    ensures IsXor(z, c, v)
  {
    c := z ^ v;
  }

  /** Every register value is reached, from exactly one start. */
  lemma {:induction false} RegisterBijective(target: bv32, s: seq<byte>) returns (c: bv32)
    ensures forall d :: Register(d, s) == target <==> d == c
    decreases s
  {
    if s == [] {
      c := target;
    } else {
      var d := RegisterBijective(target, s[1..]);
      c := ByteStepReaches(d, s[0]);
    }
    forall d | Register(d, s) == target ensures d == c {
      RegisterInjective(d, c, s);
    }
  }

  lemma {:induction false} RegisterConcat(c: bv32, s: seq<byte>, t: seq<byte>)
    ensures Register(c, s + t) == Register(Register(c, s), t)
    decreases s
  {
    if s == [] {
      assert s + t == t;
    } else {
      RegisterConcat(ByteStep(c, s[0]), s[1..], t);
      assert (s + t)[1..] == s[1..] + t;
    }
  }

  // ----- The register update is linear: a word can be fed one byte at a time -----

  ghost predicate LowBitsZero(y: bv32, n: nat)
    decreases n
  {
    n == 0 || (y & 1 == 0 && LowBitsZero(y >> 1, n - 1))
  }

  ghost function ShiftRight(y: bv32, n: nat): bv32
    decreases n
  {
    if n == 0 then y else ShiftRight(y >> 1, n - 1)
  }

  lemma BitStepXor(x: bv32, y: bv32)
    requires y & 1 == 0
    ensures BitStep(x ^ y) == BitStep(x) ^ (y >> 1)
  {
    LowBitXor(x, y);
    ShiftXor(x, y);
    SwapXor(x >> 1, y >> 1, POLYNOMIAL & (0 - (x & 1)));
  }

  lemma LowBitXor(x: bv32, y: bv32)
    requires y & 1 == 0
    ensures (x ^ y) & 1 == x & 1
  {}

  lemma ShiftXor(x: bv32, y: bv32)
    ensures (x ^ y) >> 1 == (x >> 1) ^ (y >> 1)
  {}

  lemma SwapXor(a: bv32, b: bv32, m: bv32)
    ensures (a ^ b) ^ m == (a ^ m) ^ b
  {}

  lemma BitStepIsXor(z: bv32, x: bv32, y: bv32)
    requires y & 1 == 0 && IsXor(z, x, y)
    ensures IsXor(BitStep(z), BitStep(x), y >> 1)
  {
    BitStepXor(x, y);
  }

  lemma {:induction false} BitStepsXor(z: bv32, x: bv32, y: bv32, n: nat)
    requires LowBitsZero(y, n) && IsXor(z, x, y)
    ensures IsXor(BitSteps(z, n), BitSteps(x, n), ShiftRight(y, n))
    decreases n
  {
    if n > 0 {
      BitStepIsXor(z, x, y);
      BitStepsXor(BitStep(z), BitStep(x), y >> 1, n - 1);
    }
  }

  lemma ShiftOutByte(y: bv32)
    requires y & 0xFF == 0
    ensures LowBitsZero(y, 8) && ShiftRight(y, 8) == y >> 8
  {}

  // ----- The reference: the table-driven code of RFC 1952 section 8 -----

  function TableEntry(c: bv32, k: nat): bv32
    decreases k
  {
    if k == 0 then c
    else TableEntry(if c & 1 == 1 then POLYNOMIAL ^ (c >> 1) else c >> 1, k - 1)
  }

  function TableStep(c: bv32, b: byte): bv32
  {
    TableEntry((c ^ (b as bv32)) & 0xFF, 8) ^ (c >> 8)
  }

  function UpdateCrc(c: bv32, s: seq<byte>): bv32
    decreases s
  {
    if s == [] then c
    else UpdateCrc(TableStep(c, s[0]), s[1..])
  }

  lemma BitStepCases(c: bv32)
    ensures BitStep(c) == if c & 1 == 1 then POLYNOMIAL ^ (c >> 1) else c >> 1
  {
    if c & 1 == 1 {
      assert 0 - (c & 1) == ONES;
      WithOnes(c >> 1);
    } else {
      LowBit(c);
      assert 0 - (c & 1) == 0;
      WithZero(c >> 1);
    }
  }

  lemma LowBit(c: bv32)
    ensures c & 1 == 0 || c & 1 == 1
  {}

  lemma WithOnes(h: bv32)
    ensures h ^ (POLYNOMIAL & ONES) == POLYNOMIAL ^ h
  {}

  lemma WithZero(h: bv32)
    ensures h ^ (POLYNOMIAL & 0) == h
  {}

  lemma {:induction false} TableEntryIsBitSteps(c: bv32, k: nat)
    ensures TableEntry(c, k) == BitSteps(c, k)
    decreases k
  {
    if k > 0 {
      BitStepCases(c);
      TableEntryIsBitSteps(BitStep(c), k - 1);
    }
  }

  lemma SplitLowByte(w: bv32)
    ensures IsXor(w, w & 0xFF, w & 0xFFFFFF00)
    ensures (w & 0xFFFFFF00) & 0xFF == 0 && (w & 0xFFFFFF00) >> 8 == w >> 8
  {}

  lemma HighBytes(c: bv32, b: byte)
    ensures (c ^ (b as bv32)) >> 8 == c >> 8
  {}

  lemma LowByteStep(c: bv32, b: byte, w: bv32)
    requires w == c ^ (b as bv32)
    ensures IsXor(ByteStep(c, b), BitSteps(w & 0xFF, 8), c >> 8)
  {
    SplitLowByte(w);
    ShiftOutByte(w & 0xFFFFFF00);
    BitStepsXor(w, w & 0xFF, w & 0xFFFFFF00, 8);
    HighBytes(c, b);
  }

  lemma TableStepIsXor(c: bv32, b: byte, t: bv32)
    requires t == TableEntry((c ^ (b as bv32)) & 0xFF, 8)
    ensures IsXor(TableStep(c, b), t, c >> 8)
  {}

  lemma TableLookup(c: bv32, b: byte)
    ensures ByteStep(c, b) == TableStep(c, b)
  {
    var low := (c ^ (b as bv32)) & 0xFF;
    LowByteStep(c, b, c ^ (b as bv32));
    TableEntryIsBitSteps(low, 8);
    TableStepIsXor(c, b, TableEntry(low, 8));
    XorFunctional(ByteStep(c, b), TableStep(c, b), BitSteps(low, 8), c >> 8);
  }

  lemma {:induction false} UpdateCrcIsRegister(c: bv32, s: seq<byte>)
    ensures UpdateCrc(c, s) == Register(c, s)
    decreases s
  {
    if s != [] {
      TableLookup(c, s[0]);
      UpdateCrcIsRegister(ByteStep(c, s[0]), s[1..]);
    }
  }

  lemma Complement(c: bv32)
    ensures !c == c ^ ONES && (0 as bv32) ^ ONES == ONES
  {}

  /** The loop computes RFC 1952's `crc(buf, len)`, that is `update_crc(0, buf, len)`. */
  lemma MatchesRfc1952(s: seq<byte>)
    ensures Crc(s) == UpdateCrc(0 ^ ONES, s) ^ ONES
  {
    UpdateCrcIsRegister(ONES, s);
    Complement(Register(ONES, s));
  }

  // ----- Error detection -----

  lemma WordBytes(z: bv32, c: bv32, a: byte, b: byte, d: byte, e: byte)
    requires IsXor(z, c, Word(a, b, d, e))
    ensures IsXor(z, c ^ (a as bv32), Word(0, b, d, e))
    ensures Word(0, b, d, e) & 0xFF == 0 && Word(0, b, d, e) >> 8 == Word(b, d, e, 0)
  {}

  lemma FeedByte(z: bv32, c: bv32, a: byte, b: byte, d: byte, e: byte)
    requires IsXor(z, c, Word(a, b, d, e))
    ensures IsXor(BitSteps(z, 8), ByteStep(c, a), Word(b, d, e, 0))
  {
    WordBytes(z, c, a, b, d, e);
    ShiftOutByte(Word(0, b, d, e));
    BitStepsXor(z, c ^ (a as bv32), Word(0, b, d, e), 8);
  }

  lemma {:induction false} BitStepsSplit(c: bv32, m: nat, n: nat)
    ensures BitSteps(c, m + n) == BitSteps(BitSteps(c, m), n)
    decreases m
  {
    if m > 0 {
      BitStepsSplit(BitStep(c), m - 1, n);
    }
  }

  lemma XorZeroWord(z: bv32, c: bv32)
    requires IsXor(z, c, Word(0, 0, 0, 0))
    ensures z == c
  {}

  /** Four bytes enter the register as one 32-bit word followed by 32 bit steps. */
  lemma FourBytes(z: bv32, c: bv32, a: byte, b: byte, d: byte, e: byte)
    requires IsXor(z, c, Word(a, b, d, e))
    ensures Register(c, [a, b, d, e]) == BitSteps(z, 32)
  {
    var c1 := ByteStep(c, a);
    var c2 := ByteStep(c1, b);
    var c3 := ByteStep(c2, d);
    var c4 := ByteStep(c3, e);
    var z1 := BitSteps(z, 8);
    var z2 := BitSteps(z1, 8);
    var z3 := BitSteps(z2, 8);
    var z4 := BitSteps(z3, 8);
    FeedByte(z, c, a, b, d, e);
    FeedByte(z1, c1, b, d, e, 0);
    FeedByte(z2, c2, d, e, 0, 0);
    FeedByte(z3, c3, e, 0, 0, 0);
    XorZeroWord(z4, c4);
    BitStepsSplit(z, 8, 24);
    BitStepsSplit(z1, 8, 16);
    BitStepsSplit(z2, 8, 8);
    FourByteSteps(c, a, b, d, e);
  }

  lemma FourByteSteps(c: bv32, a: byte, b: byte, d: byte, e: byte)
    ensures Register(c, [a, b, d, e]) == ByteStep(ByteStep(ByteStep(ByteStep(c, a), b), d), e)
  {
    hide Register, ByteStep;
    RegisterConcat(c, [a, b], [d, e]);
    RegisterConcat(c, [a], [b]);
    RegisterConcat(Register(c, [a, b]), [d], [e]);
    assert [a, b] + [d, e] == [a, b, d, e] && [a] + [b] == [a, b] && [d] + [e] == [d, e];
    OneByte(c, a); OneByte(ByteStep(c, a), b);
    OneByte(Register(c, [a, b]), d); OneByte(ByteStep(Register(c, [a, b]), d), e);
  }

  lemma OneByte(c: bv32, a: byte)
    ensures Register(c, [a]) == ByteStep(c, a)
  {}

  lemma XorOfWords(c: bv32, v: bv32, w: bv32, z: bv32)
    requires IsXor(z, c, v) && IsXor(z, c, w)
    ensures v == w
  {}

  lemma SameAfterWord(c: bv32, v: bv32, w: bv32, y: bv32, z: bv32)
    requires IsXor(y, c, v) && IsXor(z, c, w) && BitSteps(y, 32) == BitSteps(z, 32)
    ensures v == w
  {
    BitStepsInjective(y, z, 32);
    XorOfWords(c, v, w, y);
  }

  lemma WindowInjective(c: bv32, s: seq<byte>, t: seq<byte>)
    requires |s| == |t| == 4 && Register(c, s) == Register(c, t)
    ensures s == t
  {
    assert s == [s[0], s[1], s[2], s[3]] && t == [t[0], t[1], t[2], t[3]];
    var v, w := Word(s[0], s[1], s[2], s[3]), Word(t[0], t[1], t[2], t[3]);
    var y := MakeXor(c, v);
    var z := MakeXor(c, w);
    FourBytes(y, c, s[0], s[1], s[2], s[3]);
    FourBytes(z, c, t[0], t[1], t[2], t[3]);
    SameAfterWord(c, v, w, y, z);
    WordInjective(s[0], s[1], s[2], s[3], t[0], t[1], t[2], t[3]);
  }

  lemma ShortWindowInjective(c: bv32, s: seq<byte>, t: seq<byte>)
    requires |s| == |t| <= 4 && Register(c, s) == Register(c, t)
    ensures s == t
  {
    var pad := Repeat(0, 4 - |s|);
    RegisterConcat(c, s, pad);
    RegisterConcat(c, t, pad);
    WindowInjective(c, s + pad, t + pad);
    assert s == (s + pad)[..|s|] && t == (t + pad)[..|t|];
  }

  lemma CrcIsComplement(s: seq<byte>, t: seq<byte>)
    requires Crc(s) == Crc(t)
    ensures Register(ONES, s) == Register(ONES, t)
  {}

  /** No change confined to four adjacent bytes keeps the checksum. */
  lemma DetectsWindow(prefix: seq<byte>, s: seq<byte>, t: seq<byte>, suffix: seq<byte>)
    requires |s| == |t| <= 4 && s != t
    ensures Crc(prefix + s + suffix) != Crc(prefix + t + suffix)
  {
    if Crc(prefix + s + suffix) == Crc(prefix + t + suffix) {
      CrcIsComplement(prefix + s + suffix, prefix + t + suffix);
      RegisterWindow(prefix, s, suffix);
      RegisterWindow(prefix, t, suffix);
      var c := Register(ONES, prefix);
      RegisterInjective(Register(c, s), Register(c, t), suffix);
      ShortWindowInjective(c, s, t);
    }
  }

  lemma RegisterWindow(prefix: seq<byte>, s: seq<byte>, suffix: seq<byte>)
    ensures Register(ONES, prefix + s + suffix) == Register(Register(Register(ONES, prefix), s), suffix)
  {
    RegisterConcat(ONES, prefix + s, suffix);
    RegisterConcat(ONES, prefix, s);
  }

  /** Two strings that agree outside a window of four bytes have equal checksums only if equal. */
  lemma DetectsBurst(s: seq<byte>, t: seq<byte>, start: nat)
    requires |s| == |t| && s != t
    requires forall i :: 0 <= i < |s| && !(start <= i < start + 4) ==> s[i] == t[i]
    ensures Crc(s) != Crc(t)
  {
    var lo, hi := Min(start, |s|), Min(start + 4, |s|);
    assert s == s[..lo] + s[lo..hi] + s[hi..];
    assert t == s[..lo] + t[lo..hi] + s[hi..];
    DetectsWindow(s[..lo], s[lo..hi], t[lo..hi], s[hi..]);
  }
}
