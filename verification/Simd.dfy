/** The 128-bit operations of the vectorised scan: bitwise and, exclusive or, the all-zeros test, and
    PCMPESTRM in its "equal each", bit-mask, positive-polarity form for unsigned bytes, after section 4.1
    of the Intel Software Developer's Manual, Volume 2B. */
module Simd {
  import opened Words

  /** A register as sixteen bytes, lowest first. */
  type Xmm = s: seq<bv8> | |s| == 16 witness [0, 0, 0, 0, 0, 0, 0, 0, 0, 0, 0, 0, 0, 0, 0, 0]

  function BitOf(k: nat): bv8
    requires k < 8
  {
    (1 as bv8) << k
  }

  predicate HasBit(b: bv8, k: nat)
    requires k < 8
  {
    b & BitOf(k) != 0
  }

  lemma BitValues()
    ensures BitOf(0) == 1 && BitOf(1) == 2 && BitOf(2) == 4 && BitOf(3) == 8
    ensures BitOf(4) == 16 && BitOf(5) == 32 && BitOf(6) == 64 && BitOf(7) == 128
  {
  }

  lemma SetBit(b: bv8, j: nat, k: nat)
    requires j < 8 && k < 8
    ensures HasBit(b | BitOf(j), k) <==> j == k || HasBit(b, k)
  {
    hide BitOf;
    var x, y := BitOf(j), BitOf(k);
    MaskedOr(b, x, y);
    BitsMeet(j, k);
    if j == k {
      NothingLost(b & y, x & y);
    } else {
      OrNothing(b & y);
    }
  }

  lemma MaskedOr(b: bv8, x: bv8, y: bv8)
    ensures (b | x) & y == (b & y) | (x & y)
  {
  }

  lemma OrNothing(b: bv8)
    ensures b | 0 == b
  {
  }

  lemma NothingLost(a: bv8, b: bv8)
    requires b != 0
    ensures a | b != 0
  {
  }

  /** Two single bits meet only when they are the same. */
  lemma BitsMeet(j: nat, k: nat)
    requires j < 8 && k < 8
    ensures BitOf(j) & BitOf(k) == (if j == k then BitOf(k) else 0) && BitOf(k) != 0
  {
    BitValues();
    hide BitOf;
    match j {
      case 0 =>
      case 1 =>
      case 2 =>
      case 3 =>
      case 4 =>
      case 5 =>
      case 6 =>
      case 7 =>
    }
  }

  /** What remains of `m` after removing the bits it shares with `c` is nothing exactly when `c` covers it. */
  lemma Covered(m: bv8, c: bv8)
    ensures m ^ (m & c) == 0 <==> forall k: nat | k < 8 :: HasBit(m, k) ==> HasBit(c, k)
  {
    assert HasBit(m, 0) || !HasBit(m, 0);
    assert HasBit(m, 1) || !HasBit(m, 1);
    assert HasBit(m, 2) || !HasBit(m, 2);
    assert HasBit(m, 3) || !HasBit(m, 3);
    assert HasBit(m, 4) || !HasBit(m, 4);
    assert HasBit(m, 5) || !HasBit(m, 5);
    assert HasBit(m, 6) || !HasBit(m, 6);
    assert HasBit(m, 7) || !HasBit(m, 7);
  }

  function And(a: Xmm, b: Xmm): Xmm {
    seq(16, i requires 0 <= i < 16 => a[i] & b[i])
  }

  function Xor(a: Xmm, b: Xmm): Xmm {
    seq(16, i requires 0 <= i < 16 => a[i] ^ b[i])
  }

  predicate TestAllZeros(a: Xmm) {
    forall i | 0 <= i < 16 :: a[i] == 0
  }

  /** One of the sixteen low bits. */
  predicate Bit(a: Xmm, k: nat)
    requires k < 16
  {
    if k < 8 then HasBit(a[0], k) else HasBit(a[1], k - 8)
  }

  /** Intermediate result of "equal each": a byte past the length of its operand is invalid; a pair of
      invalid bytes counts as equal, a pair with one invalid byte as different. */
  predicate EqualEach(a: seq<Byte>, la: nat, b: seq<Byte>, lb: nat, k: nat)
    requires |a| == 16 && |b| == 16 && k < 16
  {
    if k < la && k < lb then a[k] == b[k] else k >= la && k >= lb
  }

  /** Eight comparison results packed into a byte, first result in the lowest bit. */
  function Pack(f: nat -> bool, from: nat, n: nat): bv8
    requires n <= 8
  {
    if n == 0 then 0
    else Pack(f, from, n - 1) | (if f(from + n - 1) then BitOf(n - 1) else 0)
  }

  lemma {:induction false} PackBits(f: nat -> bool, from: nat, n: nat, k: nat)
    requires n <= 8 && k < 8
    ensures HasBit(Pack(f, from, n), k) <==> k < n && f(from + k)
  {
    if n == 0 {
      NoBits(k);
    } else {
      PackBits(f, from, n - 1, k);
      if f(from + n - 1) {
        SetBit(Pack(f, from, n - 1), n - 1, k);
      } else {
        assert Pack(f, from, n) == Pack(f, from, n - 1);
      }
    }
  }

  lemma NoBits(k: nat)
    requires k < 8
    ensures !HasBit(0, k)
  {
  }

  /** The sixteen comparison results. */
  function Results(a: seq<Byte>, la: nat, b: seq<Byte>, lb: nat): (f: nat -> bool)
    requires |a| == 16 && |b| == 16
    ensures forall k: nat :: f(k) == (k < 16 && EqualEach(a, la, b, lb, k))
  {
    (k: nat) => k < 16 && EqualEach(a, la, b, lb, k)
  }

  /** `_mm_cmpestrm(a, la, b, lb, _SIDD_CMP_EQUAL_EACH)`: sixteen result bits, zero-extended. */
  function CompareEach(a: seq<Byte>, la: nat, b: seq<Byte>, lb: nat): Xmm
    requires |a| == 16 && |b| == 16
  {
    var f := Results(a, la, b, lb);
    [Pack(f, 0, 8), Pack(f, 8, 8), 0, 0, 0, 0, 0, 0, 0, 0, 0, 0, 0, 0, 0, 0]
  }

  lemma CompareEachBit(a: seq<Byte>, la: nat, b: seq<Byte>, lb: nat, k: nat)
    requires |a| == 16 && |b| == 16 && k < 16
    ensures Bit(CompareEach(a, la, b, lb), k) <==> EqualEach(a, la, b, lb, k)
  {
    hide Pack, HasBit, EqualEach;
    var f := Results(a, la, b, lb);
    if k < 8 {
      PackBits(f, 0, 8, k);
    } else {
      PackBits(f, 8, 8, k - 8);
    }
  }

  lemma ZeroAnd(c: bv8)
    ensures (0 as bv8) ^ ((0 as bv8) & c) == 0
  {
  }

  lemma LowBytesDecide(wanted: Xmm, found: Xmm)
    requires forall i | 2 <= i < 16 :: wanted[i] == 0
    ensures TestAllZeros(Xor(wanted, And(wanted, found))) <==>
            wanted[0] ^ (wanted[0] & found[0]) == 0 && wanted[1] ^ (wanted[1] & found[1]) == 0
  {
    var left := Xor(wanted, And(wanted, found));
    assert left[0] == wanted[0] ^ (wanted[0] & found[0]) && left[1] == wanted[1] ^ (wanted[1] & found[1]);
    forall i | 2 <= i < 16
      ensures left[i] == 0
    {
      ZeroAnd(found[i]);
    }
    hide Xor, And;
  }

  /** Sixteen bits are the eight bits of two bytes. */
  lemma BitsOfTwoBytes(wanted: Xmm, found: Xmm)
    ensures (forall k: nat | k < 16 :: Bit(wanted, k) ==> Bit(found, k)) <==>
            && (forall k: nat | k < 8 :: HasBit(wanted[0], k) ==> HasBit(found[0], k))
            && (forall k: nat | k < 8 :: HasBit(wanted[1], k) ==> HasBit(found[1], k))
  {
    hide HasBit;
    if forall k: nat | k < 16 :: Bit(wanted, k) ==> Bit(found, k) {
      forall k: nat | k < 8
        ensures HasBit(wanted[0], k) ==> HasBit(found[0], k)
        ensures HasBit(wanted[1], k) ==> HasBit(found[1], k)
      {
        assert Bit(wanted, k) ==> Bit(found, k);
        assert Bit(wanted, k + 8) ==> Bit(found, k + 8);
      }
    }
  }

  /** The scan's test: the wanted bits are all among the bits found. */
  lemma CoverTest(wanted: Xmm, found: Xmm)
    requires forall i | 2 <= i < 16 :: wanted[i] == 0
    ensures TestAllZeros(Xor(wanted, And(wanted, found))) <==>
            forall k: nat | k < 16 :: Bit(wanted, k) ==> Bit(found, k)
  {
    Covered(wanted[0], found[0]);
    Covered(wanted[1], found[1]);
    LowBytesDecide(wanted, found);
    BitsOfTwoBytes(wanted, found);
    hide *;
  }
}
