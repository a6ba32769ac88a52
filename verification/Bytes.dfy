// Byte strings, little-endian fields and in-place slice assignment, shared by
// every on-disk and in-image format of the project.
module Bytes {

  datatype Option<T> = None | Some(value: T)

  type byte = x: int | 0 <= x < 256
  type u16 = x: int | 0 <= x < 0x1_0000
  type u32 = x: int | 0 <= x < 0x1_0000_0000
  type u64 = x: int | 0 <= x < 0x1_0000_0000_0000_0000

  function Zeros(n: nat): (s: seq<byte>)
    ensures |s| == n
    ensures forall i :: 0 <= i < n ==> s[i] == 0
  {
    seq(n, _ => 0)
  }

  predicate AllZero(s: seq<byte>) {
    forall i :: 0 <= i < |s| ==> s[i] == 0
  }

  function Max(a: nat, b: nat): nat {
    if a < b then b else a
  }

  /** `tuple(range(first, first + n))`. */
  function Consecutive(first: nat, n: nat): (c: seq<nat>)
    ensures |c| == n && forall k :: 0 <= k < n ==> c[k] == first + k
  {
    if n == 0 then [] else Consecutive(first, n - 1) + [first + n - 1]
  }

  function Min(a: int, b: int): int {
    if a < b then a else b
  }

  /** Rounds up, as `(n + d - 1) // d` does for a positive `d`. */
  function CeilDiv(n: nat, d: nat): nat
    requires 0 < d
  {
    (n + d - 1) / d
  }

  /** A slice with both ends clamped to the string, as Python slices are. */
  function Slice(s: seq<byte>, lo: nat, hi: nat): (r: seq<byte>)
    requires lo <= hi
    ensures |r| == Min(hi, |s|) - Min(lo, |s|)
  {
    s[Min(lo, |s|)..Min(hi, |s|)]
  }

  // ---------------------------------------------------------------- fields

  function Pow256(w: nat): (r: nat)
    ensures 0 < r
  {
    if w == 0 then 1 else 256 * Pow256(w - 1)
  }

  /** The low `w` bytes of `n`, least significant first. */
  function Le(n: nat, w: nat): (s: seq<byte>)
    ensures |s| == w
  {
    if w == 0 then [] else [n % 256] + Le(n / 256, w - 1)
  }

  function UnLe(s: seq<byte>): nat {
    if |s| == 0 then 0 else s[0] + 256 * UnLe(s[1..])
  }

  /** A little-endian constant, one byte at a time. */
  lemma LePush(b: byte, rest: nat, w: nat)
    ensures Le(256 * rest + b, w + 1) == [b] + Le(rest, w)
  {
    var n := 256 * rest + b;
    assert n % 256 == b && n / 256 == rest by { hide Le; }
    LeStep(n, w);
    hide Le;
  }

  lemma LeStep(n: nat, w: nat)
    ensures Le(n, w + 1) == [n % 256] + Le(n / 256, w)
  {
  }

  lemma {:induction false} UnLeOfLe(n: nat, w: nat)
    requires n < Pow256(w)
    ensures UnLe(Le(n, w)) == n
  {
    if w > 0 {
      UnLeOfLe(n / 256, w - 1);
      assert Le(n, w)[1..] == Le(n / 256, w - 1);
    }
  }

  lemma {:induction false} LeOfUnLe(s: seq<byte>)
    ensures UnLe(s) < Pow256(|s|)
    ensures Le(UnLe(s), |s|) == s
  {
    if |s| > 0 {
      LeOfUnLe(s[1..]);
      assert UnLe(s) % 256 == s[0] && UnLe(s) / 256 == UnLe(s[1..]);
    }
  }

  /** Two byte strings of one length with the same value are the same string. */
  lemma UnLeInjective(a: seq<byte>, b: seq<byte>)
    requires |a| == |b| && UnLe(a) == UnLe(b)
    ensures a == b
  {
    LeOfUnLe(a);
    LeOfUnLe(b);
  }

  lemma Widths()
    ensures Pow256(1) == 0x100 && Pow256(2) == 0x1_0000
    ensures Pow256(4) == 0x1_0000_0000 && Pow256(8) == 0x1_0000_0000_0000_0000
  {
    assert Pow256(3) == 0x100_0000;
    assert Pow256(5) == 0x100_0000_0000;
    assert Pow256(6) == 0x1_0000_0000_0000;
    assert Pow256(7) == 0x100_0000_0000_0000;
  }

  lemma SignatureWord()
    ensures Le(0xAA55, 2) == [0x55, 0xAA]
  {
    assert Le(0xAA, 1) == [0xAA] + Le(0, 0);
  }

  /** Fields of two and four bytes, byte by byte. */
  lemma WordOfField(s: seq<byte>, o: nat)
    requires o + 2 <= |s|
    ensures Field(s, o, 2) == s[o] as nat + 256 * (s[o + 1] as nat)
  {
    var q := s[o..o + 2];
    assert UnLe(q) == q[0] + 256 * UnLe(q[1..]);
    assert UnLe(q[1..]) == q[1] + 256 * UnLe(q[1..][1..]);
    assert q[1..][1..] == [];
  }

  lemma DoubleWordOfField(s: seq<byte>, o: nat)
    requires o + 4 <= |s|
    ensures Field(s, o, 4)
            == s[o] as nat + 0x100 * (s[o + 1] as nat) + 0x1_0000 * (s[o + 2] as nat) + 0x100_0000 * (s[o + 3] as nat)
  {
    var q := s[o..o + 4];
    assert UnLe(q) == q[0] + 256 * UnLe(q[1..]);
    assert UnLe(q[1..]) == q[1] + 256 * UnLe(q[2..]) by { assert q[1..][1..] == q[2..]; }
    assert UnLe(q[2..]) == q[2] + 256 * UnLe(q[3..]) by { assert q[2..][1..] == q[3..]; }
    assert UnLe(q[3..]) == q[3] + 256 * UnLe([]) by { assert q[3..][1..] == []; }
  }

  lemma SliceOfSlice(p: seq<byte>, a: nat, b: nat, lo: nat, hi: nat)
    requires a <= b <= |p| && lo <= hi <= b - a
    ensures p[a..b][lo..hi] == p[a + lo..a + hi]
  {
    var outer, inner := p[a..b], p[a + lo..a + hi];
    forall i | 0 <= i < hi - lo
      ensures outer[lo..hi][i] == inner[i]
    {
      assert outer[lo + i] == p[a + lo + i];
    }
  }

  /** The unsigned little-endian field of `w` bytes at `offset`. */
  function Field(s: seq<byte>, offset: nat, w: nat): (n: nat)
    requires offset + w <= |s|
  {
    UnLe(s[offset..offset + w])
  }

  function Read16(s: seq<byte>, offset: nat): (n: u16)
    requires offset + 2 <= |s|
    ensures n == Field(s, offset, 2)
  {
    FieldBytes(s, offset, 2);
    Field(s, offset, 2)
  }

  function Read32(s: seq<byte>, offset: nat): (n: u32)
    requires offset + 4 <= |s|
    ensures n == Field(s, offset, 4)
  {
    FieldBytes(s, offset, 4);
    Field(s, offset, 4)
  }

  function Read64(s: seq<byte>, offset: nat): (n: u64)
    requires offset + 8 <= |s|
    ensures n == Field(s, offset, 8)
  {
    FieldBytes(s, offset, 8);
    Field(s, offset, 8)
  }

  /** A field's value is in range and gives its bytes back. */
  lemma FieldBytes(s: seq<byte>, offset: nat, w: nat)
    requires offset + w <= |s|
    ensures Field(s, offset, w) < Pow256(w)
    ensures Le(Field(s, offset, w), w) == s[offset..offset + w]
    ensures Pow256(2) == 0x1_0000 && Pow256(4) == 0x1_0000_0000 && Pow256(8) == 0x1_0000_0000_0000_0000
  {
    LeOfUnLe(s[offset..offset + w]);
    Widths();
  }

  /** Reading back a field written as `w` little-endian bytes. */
  lemma FieldOfLe(s: seq<byte>, offset: nat, w: nat, n: nat)
    requires offset + w <= |s| && n < Pow256(w) && s[offset..offset + w] == Le(n, w)
    ensures Field(s, offset, w) == n
  {
    UnLeOfLe(n, w);
  }

  /** Fields of a string found inside another, read in place. */
  lemma FieldShift(p: seq<byte>, offset: nat, s: seq<byte>)
    requires offset + |s| <= |p| && p[offset..offset + |s|] == s
    ensures forall o: nat, w: nat {:trigger Field(s, o, w)} :: o + w <= |s| ==> Field(p, offset + o, w) == Field(s, o, w)
    ensures forall o :: 0 <= o < |s| ==> p[offset + o] == s[o]
  {
    forall o: nat, w: nat | o + w <= |s|
      ensures Field(p, offset + o, w) == Field(s, o, w)
    {
      SliceOfSlice(p, offset, offset + |s|, o, o + w);
    }
    forall o | 0 <= o < |s|
      ensures p[offset + o] == s[o]
    {
      assert p[offset..offset + |s|][o] == s[o];
    }
  }

  lemma SubSlice(p: seq<byte>, offset: nat, s: seq<byte>, lo: nat, hi: nat)
    requires offset + |s| <= |p| && p[offset..offset + |s|] == s && lo <= hi <= |s|
    ensures p[offset + lo..offset + hi] == s[lo..hi]
  {
    SliceOfSlice(p, offset, offset + |s|, lo, hi);
  }

  // ---------------------------------------------------- in-place assignment

  /** `dst[offset:offset+len(src)] = src`. */
  function Splice(dst: seq<byte>, offset: nat, src: seq<byte>): (r: seq<byte>)
    requires offset + |src| <= |dst|
    ensures |r| == |dst|
    ensures forall i :: 0 <= i < |dst| ==>
              r[i] == if offset <= i < offset + |src| then src[i - offset] else dst[i]
  {
    dst[..offset] + src + dst[offset + |src|..]
  }

  lemma SpliceReads(dst: seq<byte>, offset: nat, src: seq<byte>)
    requires offset + |src| <= |dst|
    ensures Splice(dst, offset, src)[offset..offset + |src|] == src
  {
  }

  lemma SpliceKeeps(dst: seq<byte>, offset: nat, src: seq<byte>, lo: nat, hi: nat)
    requires offset + |src| <= |dst| && lo <= hi <= |dst|
    requires hi <= offset || offset + |src| <= lo
    ensures Splice(dst, offset, src)[lo..hi] == dst[lo..hi]
  {
  }

  /** Two adjacent assignments are one assignment of the concatenation. */
  lemma SpliceTwice(dst: seq<byte>, offset: nat, a: seq<byte>, b: seq<byte>)
    requires offset + |a| + |b| <= |dst|
    ensures Splice(Splice(dst, offset, a), offset + |a|, b) == Splice(dst, offset, a + b)
  {
  }

  /** An assignment that continues the one before it. */
  lemma Extend(base: seq<byte>, offset: nat, done: seq<byte>, more: seq<byte>) returns (r: seq<byte>)
    requires offset + |done| + |more| <= |base|
    ensures r == done + more
    ensures Splice(Splice(base, offset, done), offset + |done|, more) == Splice(base, offset, r)
  {
    r := done + more;
    SpliceTwice(base, offset, done, more);
  }

  method Blit(dst: array<byte>, offset: nat, src: seq<byte>)
    requires offset + |src| <= dst.Length
    modifies dst
    ensures dst[..] == Splice(old(dst[..]), offset, src)
  {
    var i := 0;
    while i < |src|
      invariant 0 <= i <= |src|
      invariant forall j :: 0 <= j < dst.Length ==>
                  dst[j] == if offset <= j < offset + i then src[j - offset] else old(dst[j])
    {
      dst[offset + i] := src[i];
      i := i + 1;
    }
  }

  // ------------------------------------------------ products and quotients

  lemma ScaledOrder(a: nat, b: nat, k: nat)
    requires a <= b
    ensures a * k <= b * k
  {
  }

  lemma QuotientIs(n: nat, d: nat, q: nat, r: nat)
    requires 0 < d && n == d * q + r && r < d
    ensures n / d == q && n % d == r
  {
    var x := n / d;
    assert n == d * x + n % d;
    if x < q {
      ScaledOrder(x + 1, q, d);
    } else if x > q {
      ScaledOrder(q + 1, x, d);
    }
  }

  // ------------------------------------------------------------ counting

  ghost predicate NoRepeats(chain: seq<nat>) {
    forall i, j :: 0 <= i < j < |chain| ==> chain[i] != chain[j]
  }

  ghost function Range(lo: nat, hi: nat): set<nat>
    decreases hi
  {
    if lo < hi then Range(lo, hi - 1) + {hi - 1} else {}
  }

  lemma {:induction false} RangeSize(lo: nat, hi: nat)
    requires lo <= hi
    ensures |Range(lo, hi)| == hi - lo
    ensures forall c: nat :: c in Range(lo, hi) <==> lo <= c < hi
    decreases hi
  {
    if lo < hi {
      RangeSize(lo, hi - 1);
    }
  }

  lemma {:induction false} Pigeonhole(chain: seq<nat>, s: set<nat>)
    requires NoRepeats(chain) && forall k :: 0 <= k < |chain| ==> chain[k] in s
    ensures |chain| <= |s|
    decreases |chain|
  {
    if |chain| > 0 {
      var last := chain[|chain| - 1];
      Pigeonhole(chain[..|chain| - 1], s - {last});
    }
  }

  // ------------------------------------------------------- exclusive or

  /** Bitwise exclusive or of two unsigned integers. */
  function Xor(a: nat, b: nat): nat
    decreases a + b
  {
    if a == 0 && b == 0 then 0 else (a % 2 + b % 2) % 2 + 2 * Xor(a / 2, b / 2)
  }

  function Pow2(k: nat): (r: nat)
    ensures 0 < r
  {
    if k == 0 then 1 else 2 * Pow2(k - 1)
  }

  lemma {:induction false} XorUndoes(a: nat, b: nat)
    ensures Xor(Xor(a, b), b) == a
    decreases a + b
  {
    hide Xor;
    if a == 0 && b == 0 {
      XorZero(0);
    } else {
      XorUndoes(a / 2, b / 2);
      XorHalves(a, b);
      XorHalves(Xor(a, b), b);
      SameHalves(Xor(Xor(a, b), b), a);
    }
  }

  lemma {:induction false} XorBound(a: nat, b: nat, k: nat)
    requires a < Pow2(k) && b < Pow2(k)
    ensures Xor(a, b) < Pow2(k)
  {
    if k > 0 {
      XorBound(a / 2, b / 2, k - 1);
    }
  }

  /** A top bit set in exactly one operand is set in the result. */
  lemma {:induction false} XorTopBit(a: nat, b: nat, k: nat)
    requires a < Pow2(k) <= b < Pow2(k + 1)
    ensures Pow2(k) <= Xor(a, b) < Pow2(k + 1)
  {
    if k > 0 {
      XorTopBit(a / 2, b / 2, k - 1);
    } else {
      assert a == 0 && b == 1 && Xor(0, 0) == 0;
    }
  }

  lemma XorInjective(a: nat, b: nat, c: nat)
    requires Xor(a, c) == Xor(b, c)
    ensures a == b
  {
    XorUndoes(a, c);
    XorUndoes(b, c);
  }

  lemma {:induction false} XorCommutes(a: nat, b: nat)
    ensures Xor(a, b) == Xor(b, a)
    decreases a + b
  {
    if a != 0 || b != 0 {
      XorCommutes(a / 2, b / 2);
    }
  }

  lemma {:induction false} XorZero(a: nat)
    ensures Xor(a, 0) == a
  {
    if a != 0 {
      XorZero(a / 2);
    }
  }

  /** A nonzero mask changes the byte it is applied to, and keeps it a byte. */
  lemma XorByte(a: byte, mask: byte)
    ensures Xor(a, mask) < 256
    ensures mask != 0 ==> Xor(a, mask) != a
  {
    assert Pow2(4) == 16 && Pow2(8) == 256;
    XorBound(a, mask, 8);
    if Xor(a, mask) == a {
      XorCommutes(a, mask);
      XorCommutes(a, 0);
      XorZero(a);
      XorInjective(mask, 0, a);
    }
  }

  /** A top bit set in both operands is cleared in the result. */
  lemma {:induction false} XorTopBits(a: nat, b: nat, k: nat)
    requires Pow2(k) <= a < Pow2(k + 1) && Pow2(k) <= b < Pow2(k + 1)
    ensures Xor(a, b) < Pow2(k)
  {
    if k > 0 {
      XorTopBits(a / 2, b / 2, k - 1);
    } else {
      assert a == 1 && b == 1 && Xor(0, 0) == 0;
    }
  }

  lemma {:induction false} XorAssociates(a: nat, b: nat, c: nat)
    ensures Xor(Xor(a, b), c) == Xor(a, Xor(b, c))
    decreases a + b + c
  {
    hide Xor;
    if a == 0 && b == 0 && c == 0 {
      XorZero(0);
    } else {
      XorHalves(a, b);
      XorHalves(b, c);
      XorHalves(Xor(a, b), c);
      XorHalves(a, Xor(b, c));
      XorAssociates(a / 2, b / 2, c / 2);
      BitAssociates(a % 2, b % 2, c % 2);
      SameHalves(Xor(Xor(a, b), c), Xor(a, Xor(b, c)));
    }
  }

  lemma BitAssociates(x: nat, y: nat, z: nat)
    requires x < 2 && y < 2 && z < 2
    ensures ((x + y) % 2 + z) % 2 == (x + (y + z) % 2) % 2
    ensures ((x + y) % 2) % 2 == (x + y) % 2 && ((y + z) % 2) % 2 == (y + z) % 2
  {
  }

  lemma SameHalves(x: nat, y: nat)
    requires x / 2 == y / 2 && x % 2 == y % 2
    ensures x == y
  {
  }

  lemma XorHalves(a: nat, b: nat)
    ensures Xor(a, b) / 2 == Xor(a / 2, b / 2) && Xor(a, b) % 2 == (a % 2 + b % 2) % 2
  {
  }

  /** `high << k`. */
  function Shifted(high: nat, k: nat): nat {
    if k == 0 then high else 2 * Shifted(high, k - 1)
  }

  lemma {:induction false} ShiftedIsScaled(high: nat, k: nat)
    ensures Shifted(high, k) == Pow2(k) * high
  {
    if k > 0 {
      ShiftedIsScaled(high, k - 1);
      Halving(high, k);
    }
  }

  /** A low part below 2^k and a high part shifted past it do not meet. */
  lemma {:induction false} XorParts(low: nat, high: nat, k: nat)
    requires low < Pow2(k)
    ensures Xor(low, Shifted(high, k)) == low + Shifted(high, k)
  {
    hide Xor;
    if k == 0 {
      XorCommutes(0, high);
      XorZero(high);
    } else {
      XorParts(low / 2, high, k - 1);
      var rest := Shifted(high, k - 1);
      hide Pow2, Shifted;
      XorHalves(low, 2 * rest);
      SameHalves(Xor(low, 2 * rest), low + 2 * rest);
    }
  }

  lemma Halving(high: nat, k: nat)
    requires 0 < k
    ensures Pow2(k) * high == 2 * (Pow2(k - 1) * high)
  {
  }
}
