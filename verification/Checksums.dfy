// CRC-32 (section 8 of RFC 1952) and FNV-1a, with the one-byte detection
// property of each: two strings of one length that differ in exactly one byte
// never share a checksum.
module Checksums {
  import opened Bytes

  /** `a` and `b` have one length and differ at index `i` and nowhere else. */
  ghost predicate DifferOnlyAt(a: seq<byte>, b: seq<byte>, i: nat) {
    && |a| == |b|
    && i < |a|
    && a[i] != b[i]
    && a[..i] == b[..i]
    && a[i + 1..] == b[i + 1..]
  }

  lemma ElsewhereSame(a: seq<byte>, b: seq<byte>, i: nat)
    requires DifferOnlyAt(a, b, i)
    ensures |a| == |b| && i < |a| && a[i] != b[i] && forall k :: 0 <= k < |a| && k != i ==> a[k] == b[k]
  {
    forall k | 0 <= k < |a| && k != i
      ensures a[k] == b[k]
    {
      if k < i {
        assert a[..i][k] == b[..i][k];
      } else {
        assert a[i + 1..][k - i - 1] == b[i + 1..][k - i - 1];
      }
    }
  }

  // ------------------------------------------------------------- CRC-32

  const CRC_POLYNOMIAL: nat := 0xEDB8_8320
  const CRC_START: nat := 0xFFFF_FFFF

  type Register = r: nat | r < 0x1_0000_0000

  lemma Powers()
    ensures Pow2(8) == 0x100
    ensures Pow2(31) == 0x8000_0000 && Pow2(32) == 0x1_0000_0000
    ensures Pow2(64) == 0x1_0000_0000_0000_0000
  {
    assert Pow2(4) == 16;
    assert Pow2(8) == 0x100;
    assert Pow2(12) == 0x1000;
    assert Pow2(16) == 0x1_0000;
    assert Pow2(20) == 0x10_0000;
    assert Pow2(24) == 0x100_0000;
    assert Pow2(28) == 0x1000_0000;
    assert Pow2(32) == 0x1_0000_0000;
    assert Pow2(36) == 0x10_0000_0000;
    assert Pow2(40) == 0x100_0000_0000;
    assert Pow2(44) == 0x1000_0000_0000;
    assert Pow2(48) == 0x1_0000_0000_0000;
    assert Pow2(52) == 0x10_0000_0000_0000;
    assert Pow2(56) == 0x100_0000_0000_0000;
    assert Pow2(60) == 0x1000_0000_0000_0000;
  }

  /** One shift of the reflected register; the top bit of the polynomial makes
      the branch taken visible in the result. */
  function BitStep(r: Register): (q: Register)
    ensures q < 0x8000_0000 <==> r % 2 == 0
  {
    Powers();
    if r % 2 == 1 then
      XorTopBit(r / 2, CRC_POLYNOMIAL, 31);
      Xor(r / 2, CRC_POLYNOMIAL)
    else r / 2
  }

  function BitSteps(r: Register, n: nat): Register
  {
    if n == 0 then r else BitStep(BitSteps(r, n - 1))
  }

  function CrcByte(r: Register, b: byte): Register {
    Powers();
    XorBound(r, b, 32);
    BitSteps(Xor(r, b), 8)
  }

  function CrcUpdate(r: Register, s: seq<byte>): Register
    decreases |s|
  {
    if |s| == 0 then r else CrcByte(CrcUpdate(r, s[..|s| - 1]), s[|s| - 1])
  }

  function CrcFinish(r: Register): (c: Register) {
    Powers();
    XorBound(r, 0xFFFF_FFFF, 32);
    Xor(r, 0xFFFF_FFFF)
  }

  function Crc32(s: seq<byte>): Register {
    CrcFinish(CrcUpdate(CRC_START, s))
  }

  lemma CrcOf(s: seq<byte>)
    ensures Crc32(s) == CrcFinish(CrcUpdate(CRC_START, s))
    ensures CrcUpdate(CRC_START, []) == CRC_START
  {
  }

  lemma BitStepInjective(r: Register, q: Register)
    requires BitStep(r) == BitStep(q)
    ensures r == q
  {
    if r % 2 == 1 {
      XorInjective(r / 2, q / 2, CRC_POLYNOMIAL);
    }
  }

  lemma {:induction false} BitStepsInjective(r: Register, q: Register, n: nat)
    requires BitSteps(r, n) == BitSteps(q, n)
    ensures r == q
  {
    if n > 0 {
      BitStepInjective(BitSteps(r, n - 1), BitSteps(q, n - 1));
      BitStepsInjective(r, q, n - 1);
    }
  }

  /** A CRC byte step is injective in the register and in the byte. */
  lemma CrcByteInjective(r: Register, q: Register, a: byte, b: byte)
    requires CrcByte(r, a) == CrcByte(q, b)
    ensures a == b ==> r == q
    ensures r == q ==> a == b
  {
    Powers();
    XorBound(r, a, 32);
    XorBound(q, b, 32);
    BitStepsInjective(Xor(r, a), Xor(q, b), 8);
    if a == b {
      XorInjective(r, q, a);
    }
    if r == q {
      XorCommutes(r, a);
      XorCommutes(r, b);
      XorInjective(a, b, r);
    }
  }

  lemma {:induction false} CrcUpdateConcat(r: Register, a: seq<byte>, b: seq<byte>)
    ensures CrcUpdate(r, a + b) == CrcUpdate(CrcUpdate(r, a), b)
    decreases |b|
  {
    if |b| == 0 {
      assert a + b == a;
    } else {
      assert (a + b)[..|a + b| - 1] == a + b[..|b| - 1];
      CrcUpdateConcat(r, a, b[..|b| - 1]);
    }
  }

  lemma {:induction false} CrcUpdateInjective(r: Register, q: Register, s: seq<byte>)
    requires CrcUpdate(r, s) == CrcUpdate(q, s)
    ensures r == q
    decreases |s|
  {
    if |s| > 0 {
      var t := s[..|s| - 1];
      CrcByteInjective(CrcUpdate(r, t), CrcUpdate(q, t), s[|s| - 1], s[|s| - 1]);
      CrcUpdateInjective(r, q, t);
    }
  }

  /** One-byte detection: a CRC-32 never survives a change confined to one
      byte, wherever it is and whatever the length. */
  lemma CrcDetectsOneByte(a: seq<byte>, b: seq<byte>, i: nat)
    requires DifferOnlyAt(a, b, i)
    ensures Crc32(a) != Crc32(b)
  {
    if Crc32(a) == Crc32(b) {
      XorInjective(CrcUpdate(CRC_START, a), CrcUpdate(CRC_START, b), 0xFFFF_FFFF);
      var p := a[..i];
      var r := CrcUpdate(CRC_START, p);
      var tail := a[i + 1..];
      assert a == (p + [a[i]]) + tail && b == (p + [b[i]]) + tail;
      CrcUpdateConcat(CRC_START, p + [a[i]], tail);
      CrcUpdateConcat(CRC_START, p + [b[i]], tail);
      CrcUpdateInjective(CrcUpdate(CRC_START, p + [a[i]]), CrcUpdate(CRC_START, p + [b[i]]), tail);
      assert (p + [a[i]])[..i] == p && (p + [b[i]])[..i] == p;
      CrcByteInjective(r, r, a[i], b[i]);
    }
  }

  // ------------------------------------------ every checksum is reachable

  /** The step undone: the top bit tells which branch was taken. */
  function BitUnstep(q: Register): (r: Register) {
    if q < 0x8000_0000 then 2 * q
    else
      UnstepBound(q);
      2 * Xor(q, CRC_POLYNOMIAL) + 1
  }

  lemma UnstepBound(q: Register)
    requires 0x8000_0000 <= q
    ensures Xor(q, CRC_POLYNOMIAL) < 0x8000_0000
  {
    Powers();
    XorTopBits(q, CRC_POLYNOMIAL, 31);
  }

  lemma BitStepOfUnstep(q: Register)
    ensures BitStep(BitUnstep(q)) == q
  {
    hide Xor;
    XorUndoes(q, CRC_POLYNOMIAL);
  }

  lemma {:induction false} BitStepsReach(q: Register, n: nat) returns (r: Register)
    ensures BitSteps(r, n) == q
    decreases n
  {
    if n == 0 {
      r := q;
    } else {
      BitStepOfUnstep(q);
      r := BitStepsReach(BitUnstep(q), n - 1);
    }
  }

  lemma {:induction false} CrcReach(q: Register, s: seq<byte>) returns (r: Register)
    ensures CrcUpdate(r, s) == q
    decreases |s|
  {
    if |s| == 0 {
      r := q;
    } else {
      var b := s[|s| - 1];
      var m := BitStepsReach(q, 8);
      Powers();
      XorBound(m, b, 32);
      XorUndoes(m, b);
      r := CrcReach(Xor(m, b), s[..|s| - 1]);
    }
  }

  lemma BitStepCases(r: Register)
    ensures BitStep(r) == if r % 2 == 1 then Xor(r / 2, CRC_POLYNOMIAL) else r / 2
  {
  }

  lemma XorSwap(a: nat, y: nat, c: nat)
    ensures Xor(Xor(a, y), c) == Xor(Xor(a, c), y)
  {
    XorAssociates(a, y, c);
    XorCommutes(y, c);
    XorAssociates(a, c, y);
  }

  /** A bit step is linear in everything above the lowest bit. */
  lemma BitStepLinear(r: Register, y: nat)
    requires y < 0x8000_0000
    ensures Xor(r, 2 * y) < 0x1_0000_0000
    ensures BitStep(Xor(r, 2 * y)) == Xor(BitStep(r), y)
  {
    hide Xor, Pow2, BitStep;
    Powers();
    XorBound(r, 2 * y, 32);
    XorHalves(r, 2 * y);
    BitStepCases(r);
    BitStepCases(Xor(r, 2 * y));
    XorSwap(r / 2, y, CRC_POLYNOMIAL);
  }

  lemma {:induction false} BitStepsLinear(r: Register, y: nat, n: nat)
    requires Pow2(n) * y < 0x1_0000_0000
    ensures Xor(r, Pow2(n) * y) < 0x1_0000_0000
    ensures BitSteps(Xor(r, Pow2(n) * y), n) == Xor(BitSteps(r, n), y)
    decreases n
  {
    hide Xor;
    Powers();
    XorBound(r, Pow2(n) * y, 32);
    if n > 0 {
      Halving(y, n);
      assert Pow2(n) * y == Pow2(n - 1) * (2 * y);
      BitStepsLinear(r, 2 * y, n - 1);
      assert y < 0x8000_0000 by { ScaleGrows(y, n - 1); }
      BitStepLinear(BitSteps(r, n - 1), y);
    }
  }

  lemma ScaleGrows(y: nat, n: nat)
    ensures y <= Pow2(n) * y
  {
  }

  lemma {:induction false} BitStepsAdd(r: Register, a: nat, b: nat)
    ensures BitSteps(r, a + b) == BitSteps(BitSteps(r, a), b)
  {
    if b > 0 {
      BitStepsAdd(r, a, b - 1);
    }
  }

  /** The register after a word's first byte, and the rest of the word. */
  lemma CrcOfLowByte(r: Register, w: nat)
    requires w < 0x1_0000_0000
    ensures Xor(r, w) < 0x1_0000_0000 && Xor(CrcByte(r, w % 256), w / 256) < 0x1_0000_0000
    ensures BitSteps(Xor(r, w), 8) == Xor(CrcByte(r, w % 256), w / 256)
  {
    hide Xor, BitStep, BitSteps;
    Powers();
    var low, high := w % 256, w / 256;
    assert Pow2(8) * high == 256 * high;
    XorParts(low, high, 8);
    ShiftedIsScaled(high, 8);
    XorBound(r, w, 32);
    XorBound(r, low, 32);
    XorAssociates(r, low, 256 * high);
    BitStepsLinear(Xor(r, low), high, 8);
    XorBound(CrcByte(r, low), high, 32);
  }

  lemma CrcCons(r: Register, b: byte, rest: seq<byte>)
    ensures CrcUpdate(r, [b] + rest) == CrcUpdate(CrcByte(r, b), rest)
  {
    hide CrcByte;
    assert [b][..0] == [];
    CrcUpdateConcat(r, [b], rest);
  }

  lemma WordParts(w: nat, n: nat)
    requires 0 < n && w < Pow256(n)
    ensures w / 256 < Pow256(n - 1) && Le(w, n) == [w % 256] + Le(w / 256, n - 1)
  {
  }

  /** The first byte of a word and the rest of it. */
  lemma CrcJoins(r: Register, x: Register, low: byte, y: Register, rest: seq<byte>, bits: nat)
    requires BitSteps(x, 8) == y && CrcUpdate(CrcByte(r, low), rest) == BitSteps(y, bits)
    ensures CrcUpdate(r, [low] + rest) == BitSteps(x, 8 + bits)
  {
    hide BitSteps, CrcUpdate;
    CrcCons(r, low, rest);
    BitStepsAdd(x, 8, bits);
  }

  lemma CrcOfNothing(r: Register)
    ensures Xor(r, 0) == r && CrcUpdate(r, Le(0, 0)) == BitSteps(r, 0)
  {
    XorZero(r);
  }

  /** Feeding the little-endian bytes of a word is feeding the word. */
  lemma {:induction false} CrcOfWord(r: Register, w: nat, n: nat)
    requires n <= 4 && w < Pow256(n)
    ensures w < 0x1_0000_0000 && Xor(r, w) < 0x1_0000_0000
    ensures CrcUpdate(r, Le(w, n)) == BitSteps(Xor(r, w), 8 * n)
    decreases n
  {
    hide Xor, BitSteps, CrcByte, CrcUpdate, Le;
    Pow256Bound(n);
    CrcOfLowByte(r, w);
    if n == 0 {
      CrcOfNothing(r);
    } else {
      WordParts(w, n);
      hide Pow256;
      var low, high := w % 256, w / 256;
      var after := CrcByte(r, low);
      CrcOfWord(after, high, n - 1);
      assert Xor(after, high) < 0x1_0000_0000;
      CrcJoins(r, Xor(r, w), low, Xor(after, high), Le(high, n - 1), 8 * (n - 1));
      assert 8 + 8 * (n - 1) == 8 * n;
    }
  }

  lemma Pow256Bound(n: nat)
    requires n <= 4
    ensures Pow256(n) <= 0x1_0000_0000
  {
    Widths();
    assert Pow256(0) == 1 && Pow256(3) == 0x100_0000;
  }

  /** For every value and every length of at least four there are bytes with
      that CRC-32. */
  lemma CrcSurjective(c: Register, length: nat) returns (s: seq<byte>)
    requires 4 <= length
    ensures |s| == length && Crc32(s) == c
  {
    Powers();
    Widths();
    XorBound(c, 0xFFFF_FFFF, 32);
    XorUndoes(c, 0xFFFF_FFFF);
    var tail := Zeros(length - 4);
    var middle := CrcReach(Xor(c, 0xFFFF_FFFF), tail);
    var start := BitStepsReach(middle, 32);
    var w := Xor(start, CRC_START);
    XorBound(start, CRC_START, 32);
    XorCommutes(CRC_START, w);
    XorUndoes(start, CRC_START);
    CrcOfWord(CRC_START, w, 4);
    s := Le(w, 4) + tail;
    CrcUpdateConcat(CRC_START, Le(w, 4), tail);
  }

  // --------------------------------------- a checksum over one byte more

  /** A bit step is linear. */
  lemma BitStepXor(x: Register, y: Register)
    ensures Xor(x, y) < 0x1_0000_0000
    ensures BitStep(Xor(x, y)) == Xor(BitStep(x), BitStep(y))
  {
    hide Xor, Pow2, BitStep;
    Powers();
    XorBound(x, y, 32);
    XorHalves(x, y);
    BitStepCases(x);
    BitStepCases(y);
    BitStepCases(Xor(x, y));
    var a, b, c := x / 2, y / 2, CRC_POLYNOMIAL;
    if x % 2 == 1 && y % 2 == 1 {
      XorCommutes(b, c);
      XorAssociates(a, c, Xor(c, b));
      XorCancels(c, b);
    } else if x % 2 == 1 {
      XorSwap(a, b, c);
    } else if y % 2 == 1 {
      XorAssociates(a, b, c);
    }
  }

  lemma XorCancels(c: nat, b: nat)
    ensures Xor(c, Xor(c, b)) == b
  {
    XorCommutes(c, Xor(c, b));
    XorCommutes(c, b);
    XorUndoes(b, c);
  }

  lemma {:induction false} BitStepsXor(x: Register, y: Register, n: nat)
    ensures Xor(x, y) < 0x1_0000_0000
    ensures BitSteps(Xor(x, y), n) == Xor(BitSteps(x, n), BitSteps(y, n))
  {
    hide Xor, BitStep;
    if n == 0 {
      BitStepXor(x, y);
    } else {
      BitStepsXor(x, y, n - 1);
      BitStepXor(BitSteps(x, n - 1), BitSteps(y, n - 1));
    }
  }

  /** The inverse of `u ^ (u >> 1)`. */
  function Ungray(c: nat): nat {
    if c == 0 then 0 else Xor(c, Ungray(c / 2))
  }

  lemma {:induction false} UngrayHalf(c: nat)
    ensures Ungray(c) / 2 == Ungray(c / 2) && Xor(Ungray(c), Ungray(c / 2)) == c
  {
    if c == 0 {
      XorZero(0);
    } else {
      UngrayHalf(c / 2);
      hide Xor;
      XorUndoes(c, Ungray(c / 2));
      XorHalves(c, Ungray(c / 2));
      XorUndoes(c / 2, Ungray(c / 2 / 2));
      assert Xor(c / 2, Ungray(c / 2 / 2)) == Ungray(c / 2) by {
        if c / 2 == 0 { XorZero(0); }
      }
    }
  }

  lemma {:induction false} UngrayBound(c: nat, k: nat)
    requires c < Pow2(k)
    ensures Ungray(c) < Pow2(k)
  {
    if k > 0 {
      UngrayBound(c / 2, k - 1);
      assert Ungray(c / 2) < Pow2(k);
      XorBound(c, Ungray(c / 2), k);
    }
  }

  /** The parity of the bits. */
  function BitParity(c: nat): nat {
    if c == 0 then 0 else (c % 2 + BitParity(c / 2)) % 2
  }

  lemma {:induction false} UngrayParity(c: nat)
    ensures Ungray(c) % 2 == BitParity(c)
  {
    hide Xor;
    if c > 0 {
      UngrayParity(c / 2);
      XorHalves(c, Ungray(c / 2));
    }
  }

  lemma {:induction false} ParityXor(a: nat, b: nat)
    ensures BitParity(Xor(a, b)) == (BitParity(a) + BitParity(b)) % 2
    decreases a + b
  {
    hide Xor, BitParity;
    if a == 0 && b == 0 {
      XorZero(0);
      ParityOfZero(a);
    } else {
      ParityXor(a / 2, b / 2);
      XorHalves(a, b);
      ParityStep(a);
      ParityStep(b);
      ParityStep(Xor(a, b));
    }
  }

  lemma {:induction false} ParityStep(c: nat)
    ensures BitParity(c) == (c % 2 + BitParity(c / 2)) % 2
  {
  }

  lemma ParityDouble(h: nat, x: nat)
    requires x < 2
    ensures BitParity(2 * h + x) == (BitParity(h) + x) % 2
  {
  }

  lemma ParityNibble(h: nat, a: nat, b: nat, c: nat, d: nat) returns (r: nat)
    requires a < 2 && b < 2 && c < 2 && d < 2
    ensures r == 16 * h + 8 * a + 4 * b + 2 * c + d && BitParity(r) == (BitParity(h) + a + b + c + d) % 2
  {
    hide BitParity;
    r := 16 * h + 8 * a + 4 * b + 2 * c + d;
    ParityDouble(h, a);
    ParityDouble(2 * h + a, b);
    ParityDouble(2 * (2 * h + a) + b, c);
    ParityDouble(2 * (2 * (2 * h + a) + b) + c, d);
  }

  lemma ParityOfZero(z: nat)
    requires z == 0
    ensures BitParity(z) == 0
  {
  }

  /** The polynomial has an even number of terms below its top one. */
  lemma PolynomialParity(p: nat, z: nat)
    requires p == CRC_POLYNOMIAL && z == 0
    ensures BitParity(p) == 0
  {
    hide BitParity;
    ParityOfZero(z);
    var r := ParityNibble(z, 1, 1, 1, 0);
    r := ParityNibble(r, 1, 1, 0, 1);
    r := ParityNibble(r, 1, 0, 1, 1);
    r := ParityNibble(r, 1, 0, 0, 0);
    r := ParityNibble(r, 1, 0, 0, 0);
    r := ParityNibble(r, 0, 0, 1, 1);
    r := ParityNibble(r, 0, 0, 1, 0);
    r := ParityNibble(r, 0, 0, 0, 0);
    assert r == p;
  }

  lemma ParityBit(c: nat)
    ensures BitParity(c) < 2
  {
  }

  /** An even register's step is its half. */
  lemma EvenSum(d: Register)
    requires BitParity(d) == 0
    ensures Ungray(d) < 0x1_0000_0000 && Xor(BitStep(Ungray(d)), Ungray(d)) == d
  {
    Powers();
    UngrayBound(d, 32);
    UngrayParity(d);
    UngrayHalf(d);
    hide Xor, BitStep, Ungray, BitParity, Pow2;
    BitStepCases(Ungray(d));
    XorCommutes(Ungray(d) / 2, Ungray(d));
  }

  /** An odd one's is its half and the polynomial. */
  lemma OddSum(d: Register, c: Register)
    requires BitParity(d) == 1 && d == Xor(c, CRC_POLYNOMIAL)
    ensures Ungray(d) < 0x1_0000_0000 && Xor(BitStep(Ungray(d)), Ungray(d)) == c
  {
    Powers();
    UngrayBound(d, 32);
    UngrayParity(d);
    UngrayHalf(d);
    hide Xor, BitStep, Ungray, BitParity, Pow2;
    var u := Ungray(d);
    BitStepCases(u);
    XorCommutes(u / 2, u);
    XorSwap(u / 2, CRC_POLYNOMIAL, u);
    XorUndoes(c, CRC_POLYNOMIAL);
  }

  /** Every register is the sum of another one and its successor. */
  lemma StepSum(c: Register) returns (u: Register)
    ensures Xor(BitStep(u), u) == c
  {
    hide Xor, BitStep, Ungray, BitParity;
    ParityBit(c);
    if BitParity(c) == 0 {
      EvenSum(c);
      u := Ungray(c);
    } else {
      Powers();
      PolynomialParity(CRC_POLYNOMIAL, 0);
      XorBound(c, CRC_POLYNOMIAL, 32);
      ParityXor(c, CRC_POLYNOMIAL);
      OddSum(Xor(c, CRC_POLYNOMIAL), c);
      u := Ungray(Xor(c, CRC_POLYNOMIAL));
    }
  }

  /** And so with 2^k steps in place of one: the sum is taken twice as often. */
  lemma {:induction false} StepsSum(c: Register, k: nat) returns (u: Register)
    ensures Xor(BitSteps(u, Pow2(k)), u) == c
    decreases k
  {
    if k == 0 {
      u := StepSum(c);
      assert Pow2(0) == 1 && BitSteps(u, 1) == BitStep(u);
    } else {
      hide Xor, BitSteps;
      var v := StepsSum(c, k - 1);
      u := StepsSum(v, k - 1);
      var n := Pow2(k - 1);
      var w := BitSteps(u, n);
      BitStepsXor(w, u, n);
      BitStepsAdd(u, n, n);
      XorTelescopes(BitSteps(w, n), w, u);
    }
  }

  lemma XorTelescopes(a: nat, b: nat, c: nat)
    ensures Xor(Xor(a, b), Xor(b, c)) == Xor(a, c)
  {
    XorAssociates(a, b, Xor(b, c));
    XorCancels(b, c);
  }

  /** For any two strings there is one word after which the second, with a zero
      byte more, has the checksum of the first. */
  lemma ZeroByteUnseen(x: seq<byte>, y: seq<byte>) returns (w: u32)
    ensures Crc32(y + Le(w, 4) + [0]) == Crc32(x + Le(w, 4))
  {
    hide Xor, BitSteps, CrcByte, CrcUpdate, Le;
    Powers();
    Widths();
    var a, b := CrcUpdate(CRC_START, x), CrcUpdate(CRC_START, y);
    XorBound(a, b, 32);
    var u := StepsSum(Xor(a, b), 3);
    assert Pow2(3) == 8;
    XorBound(u, b, 32);
    w := Xor(u, b);
    WordSolves(a, b, u, w);
    CrcOfWord(a, w, 4);
    CrcOfWord(b, w, 4);
    CrcUpdateConcat(CRC_START, x, Le(w, 4));
    CrcUpdateConcat(CRC_START, y, Le(w, 4));
    CrcUpdateConcat(CRC_START, y + Le(w, 4), [0]);
    ZeroByteSteps(CrcUpdate(CRC_START, y + Le(w, 4)));
    BitStepsAdd(Xor(b, w), 32, 8);
    BitStepsAdd(Xor(b, w), 8, 32);
    CrcOf(x + Le(w, 4));
    CrcOf(y + Le(w, 4) + [0]);
  }

  lemma ZeroByteSteps(r: Register)
    ensures CrcUpdate(r, [0]) == BitSteps(r, 8)
  {
    XorZero(r);
    assert [0][..0] == [];
  }

  lemma WordSolves(a: Register, b: Register, u: Register, w: nat)
    requires Xor(BitSteps(u, 8), u) == Xor(a, b) && w == Xor(u, b)
    ensures Xor(b, w) == u && Xor(a, w) == BitSteps(u, 8)
  {
    hide Xor, BitSteps;
    var s := BitSteps(u, 8);
    XorCommutes(u, b);
    XorCancels(b, u);
    XorAssociates(a, b, u);
    XorUndoes(s, u);
  }

  // ------------------------------------------------------------- FNV-1a

  const FNV32_OFFSET: nat := 0x811C_9DC5
  const FNV32_PRIME: nat := 0x0100_0193
  const FNV64_OFFSET: nat := 0xCBF2_9CE4_8422_2325
  const FNV64_PRIME: nat := 0x100_0000_01B3

  datatype FnvParameters = Fnv(offset: nat, prime: nat, modulus: nat, inverse: nat)

  /** The two instances, each with the inverse of its odd prime. */
  const FNV32: FnvParameters := Fnv(FNV32_OFFSET, FNV32_PRIME, 0x1_0000_0000, FNV32_INVERSE)
  const FNV64: FnvParameters := Fnv(FNV64_OFFSET, FNV64_PRIME, 0x1_0000_0000_0000_0000, FNV64_INVERSE)
  const FNV32_INVERSE: nat := 0x359C449B
  const FNV64_INVERSE: nat := 0xCE965057AFF6957B

  predicate IsFnv(p: FnvParameters) {
    p == FNV32 || p == FNV64
  }

  function FnvStep(p: FnvParameters, value: nat, b: byte): nat
    requires IsFnv(p)
  {
    (Xor(value, b) * p.prime) % p.modulus
  }

  function FnvUpdate(p: FnvParameters, value: nat, s: seq<byte>): nat
    requires IsFnv(p)
    decreases |s|
  {
    if |s| == 0 then value else FnvStep(p, FnvUpdate(p, value, s[..|s| - 1]), s[|s| - 1])
  }

  function Fnv1a(p: FnvParameters, s: seq<byte>): nat
    requires IsFnv(p)
  {
    FnvUpdate(p, p.offset, s)
  }

  lemma FnvUpdateBound(p: FnvParameters, value: nat, s: seq<byte>)
    requires IsFnv(p) && value < p.modulus
    ensures FnvUpdate(p, value, s) < p.modulus
  {
  }

  /** Multiplying by an odd prime is injective modulo a power of two. */
  lemma MultiplyInjective(p: FnvParameters, x: nat, y: nat)
    requires IsFnv(p) && x < p.modulus && y < p.modulus
    requires (x * p.prime) % p.modulus == (y * p.prime) % p.modulus
    ensures x == y
  {
    if p == FNV32 {
      var k := x * FNV32_PRIME / 0x1_0000_0000 - y * FNV32_PRIME / 0x1_0000_0000;
      assert (x - y) * FNV32_PRIME == k * 0x1_0000_0000;
      assert FNV32_PRIME * FNV32_INVERSE == 1 + 3513497 * 0x1_0000_0000;
      assert (x - y) == (k * FNV32_INVERSE - (x - y) * 3513497) * 0x1_0000_0000;
    } else {
      var k := x * FNV64_PRIME / 0x1_0000_0000_0000_0000 - y * FNV64_PRIME / 0x1_0000_0000_0000_0000;
      assert (x - y) * FNV64_PRIME == k * 0x1_0000_0000_0000_0000;
      assert FNV64_PRIME * FNV64_INVERSE == 1 + 887285111055 * 0x1_0000_0000_0000_0000;
      assert (x - y) == (k * FNV64_INVERSE - (x - y) * 887285111055) * 0x1_0000_0000_0000_0000;
    }
  }

  lemma FnvStepInjective(p: FnvParameters, v: nat, w: nat, a: byte, b: byte)
    requires IsFnv(p) && v < p.modulus && w < p.modulus
    requires FnvStep(p, v, a) == FnvStep(p, w, b)
    ensures a == b ==> v == w
    ensures v == w ==> a == b
  {
    Powers();
    var k := if p == FNV32 then 32 else 64;
    XorBound(v, a, k);
    XorBound(w, b, k);
    MultiplyInjective(p, Xor(v, a), Xor(w, b));
    if a == b {
      XorInjective(v, w, a);
    }
    if v == w {
      XorCommutes(v, a);
      XorCommutes(v, b);
      XorInjective(a, b, v);
    }
  }

  lemma {:induction false} FnvUpdateConcat(p: FnvParameters, v: nat, a: seq<byte>, b: seq<byte>)
    requires IsFnv(p)
    ensures FnvUpdate(p, v, a + b) == FnvUpdate(p, FnvUpdate(p, v, a), b)
    decreases |b|
  {
    if |b| == 0 {
      assert a + b == a;
    } else {
      assert (a + b)[..|a + b| - 1] == a + b[..|b| - 1];
      FnvUpdateConcat(p, v, a, b[..|b| - 1]);
    }
  }

  lemma {:induction false} FnvUpdateInjective(p: FnvParameters, v: nat, w: nat, s: seq<byte>)
    requires IsFnv(p) && v < p.modulus && w < p.modulus
    requires FnvUpdate(p, v, s) == FnvUpdate(p, w, s)
    ensures v == w
    decreases |s|
  {
    if |s| > 0 {
      var t := s[..|s| - 1];
      FnvUpdateBound(p, v, t);
      FnvUpdateBound(p, w, t);
      FnvStepInjective(p, FnvUpdate(p, v, t), FnvUpdate(p, w, t), s[|s| - 1], s[|s| - 1]);
      FnvUpdateInjective(p, v, w, t);
    }
  }

  /** One-byte detection for both FNV-1a widths. */
  lemma FnvDetectsOneByte(p: FnvParameters, a: seq<byte>, b: seq<byte>, i: nat)
    requires IsFnv(p) && DifferOnlyAt(a, b, i)
    ensures Fnv1a(p, a) != Fnv1a(p, b)
  {
    if Fnv1a(p, a) == Fnv1a(p, b) {
      var q := a[..i];
      var tail := a[i + 1..];
      assert a == (q + [a[i]]) + tail && b == (q + [b[i]]) + tail;
      FnvUpdateConcat(p, p.offset, q + [a[i]], tail);
      FnvUpdateConcat(p, p.offset, q + [b[i]], tail);
      FnvUpdateBound(p, p.offset, q + [a[i]]);
      FnvUpdateBound(p, p.offset, q + [b[i]]);
      FnvUpdateInjective(p, FnvUpdate(p, p.offset, q + [a[i]]), FnvUpdate(p, p.offset, q + [b[i]]), tail);
      assert (q + [a[i]])[..i] == q && (q + [b[i]])[..i] == q;
      FnvUpdateBound(p, p.offset, q);
      FnvStepInjective(p, FnvUpdate(p, p.offset, q), FnvUpdate(p, p.offset, q), a[i], b[i]);
    }
  }

  /** `fnv1a32` and `fnv1a64` as the loop both are. */
  method ComputeFnv1a(p: FnvParameters, data: seq<byte>) returns (value: nat)
    requires IsFnv(p)
    ensures value == Fnv1a(p, data)
  {
    value := p.offset;
    var i := 0;
    while i < |data|
      invariant 0 <= i <= |data|
      invariant value == FnvUpdate(p, p.offset, data[..i])
    {
      assert data[..i + 1][..i] == data[..i];
      value := (Xor(value, data[i]) * p.prime) % p.modulus;
      i := i + 1;
    }
    assert data[..|data|] == data;
  }

  /** `crc32Update`: the register after the bytes, one bit step at a time. */
  method ComputeCrcUpdate(start: Register, bytes: seq<byte>) returns (crc: Register)
    ensures crc == CrcUpdate(start, bytes)
  {
    crc := start;
    var i := 0;
    while i < |bytes|
      invariant 0 <= i <= |bytes|
      invariant crc == CrcUpdate(start, bytes[..i])
    {
      assert bytes[..i + 1][..i] == bytes[..i];
      Powers();
      XorBound(crc, bytes[i], 32);
      crc := Xor(crc, bytes[i]);
      ghost var mixed := crc;
      var bit := 0;
      while bit < 8
        invariant 0 <= bit <= 8
        invariant crc == BitSteps(mixed, bit)
      {
        crc := BitStep(crc);
        bit := bit + 1;
      }
      i := i + 1;
    }
    assert bytes[..|bytes|] == bytes;
  }
}
