/** Bytes, 64-bit machine words and their little-endian encoding, shared by the code patcher,
    the wire format and the firmware table walker. */
module Words {

  const TWO_31: int := 0x8000_0000
  const TWO_32: int := 0x1_0000_0000
  const TWO_64: int := 0x1_0000_0000_0000_0000

  const DWORD_SIZE: nat := 4
  const WORD_SIZE: nat := 8

  type Byte = b: int | 0 <= b < 256
  type Dword = d: int | 0 <= d < 0x1_0000_0000
  type Word = w: int | 0 <= w < 0x1_0000_0000_0000_0000

  /** Unsigned 64-bit arithmetic wraps. */
  function Wrap(x: int): Word {
    x % TWO_64
  }

  /** Wrapping early or late makes no difference. */
  lemma WrapPlus(x: int, y: int)
    ensures Wrap(Wrap(x) + y) == Wrap(x + y)
  {
    var q := x / TWO_64;
    assert x == q * TWO_64 + Wrap(x);
    WrapShift(Wrap(x) + y, q);
  }

  lemma WrapShift(x: int, q: int)
    ensures Wrap(x + q * TWO_64) == Wrap(x)
  {
  }

  /** `static_cast<int64_t>` of a 64-bit value. */
  function Signed64(w: Word): int {
    if w < TWO_64 / 2 then w else w - TWO_64
  }

  /** `static_cast<int32_t>` of any integer: keep 32 bits, read them as two's complement. */
  function Signed32(x: int): int {
    var d := x % TWO_32;
    if d < TWO_31 then d else d - TWO_32
  }

  predicate FitsInt32(d: int) {
    -TWO_31 <= d < TWO_31
  }

  function Pow256(n: nat): (r: nat)
    ensures r > 0
  {
    if n == 0 then 1 else 256 * Pow256(n - 1)
  }

  /** The low `n` bytes of `v`, least significant first. */
  function LittleEndian(v: nat, n: nat): (s: seq<Byte>)
    ensures |s| == n
    decreases n
  {
    if n == 0 then [] else [v % 256] + LittleEndian(v / 256, n - 1)
  }

  function FromLittleEndian(s: seq<Byte>): nat {
    if s == [] then 0 else s[0] + 256 * FromLittleEndian(s[1..])
  }

  /** Byte `k` is digit `k` of the number to base 256. */
  lemma {:induction false} LittleEndianDigit(v: nat, n: nat, k: nat)
    requires k < n
    ensures LittleEndian(v, n)[k] == v / Pow256(k) % 256
    decreases n
  {
    if k > 0 {
      LittleEndianDigit(v / 256, n - 1, k - 1);
      DivideTwice(v, Pow256(k - 1));
    }
  }

  lemma DivideTwice(v: nat, d: nat)
    requires d > 0
    ensures v / 256 / d == v / (256 * d)
  {
    var q, r := v / 256 / d, v / 256 % d;
    assert v / 256 == q * d + r;
    assert v == 256 * (q * d + r) + v % 256;
    assert v == q * (256 * d) + (256 * r + v % 256);
    Quotient(v, q, 256 * d, 256 * r + v % 256);
  }

  lemma Quotient(x: int, q: int, d: int, r: int)
    requires x == q * d + r && 0 <= r < d
    ensures x / d == q
  {
    var p, t := x / d, x % d;
    Euclid(x, d);
    Distribute(p, q, d);
    AtLeastOne(p - q, d);
  }

  lemma Euclid(x: int, d: int)
    requires d > 0
    ensures x == x / d * d + x % d && 0 <= x % d < d
  {
  }

  lemma Distribute(p: int, q: int, d: int)
    ensures (p - q) * d == p * d - q * d
  {
  }

  lemma AtLeastOne(k: int, d: int)
    requires d >= 0
    ensures k >= 1 ==> k * d >= d
    ensures k <= -1 ==> k * d <= -d
  {
    if k >= 1 {
      assert (k - 1) * d >= 0;
    } else if k <= -1 {
      assert (-k - 1) * d >= 0;
      assert k * d == -((-k - 1) * d) - d;
    }
  }

  lemma {:induction false} FromLittleEndianBound(s: seq<Byte>)
    ensures FromLittleEndian(s) < Pow256(|s|)
  {
    if s != [] {
      FromLittleEndianBound(s[1..]);
    }
  }

  /** Storing `n` bytes and loading them again keeps the value modulo 256^n. */
  lemma {:induction false} LoadAfterStore(v: nat, n: nat)
    requires v < Pow256(n)
    ensures FromLittleEndian(LittleEndian(v, n)) == v
    decreases n
  {
    if n > 0 {
      LoadAfterStore(v / 256, n - 1);
      assert LittleEndian(v, n)[1..] == LittleEndian(v / 256, n - 1);
    }
  }

  lemma {:induction false} StoreAfterLoad(s: seq<Byte>)
    ensures LittleEndian(FromLittleEndian(s), |s|) == s
  {
    if s != [] {
      StoreAfterLoad(s[1..]);
      var v := FromLittleEndian(s);
      assert v % 256 == s[0] && v / 256 == FromLittleEndian(s[1..]);
    }
  }

  lemma Pow256Values()
    ensures Pow256(4) == TWO_32
    ensures Pow256(8) == TWO_64
  {
    assert Pow256(2) == 0x1_0000;
    assert Pow256(4) == TWO_32;
    assert Pow256(6) == 0x1_0000 * TWO_32;
  }

  function Encode32(v: Dword): (s: seq<Byte>)
    ensures |s| == 4
  {
    LittleEndian(v, DWORD_SIZE)
  }

  function Encode64(v: Word): (s: seq<Byte>)
    ensures |s| == 8
  {
    LittleEndian(v, WORD_SIZE)
  }

  function Decode32(s: seq<Byte>): Dword
    requires |s| == 4
  {
    FromLittleEndianBound(s);
    Pow256Values();
    FromLittleEndian(s)
  }

  function Decode64(s: seq<Byte>): Word
    requires |s| == 8
  {
    FromLittleEndianBound(s);
    Pow256Values();
    FromLittleEndian(s)
  }

  lemma Codec32(v: Dword)
    ensures Decode32(Encode32(v)) == v
  {
    Pow256Values();
    LoadAfterStore(v, 4);
  }

  lemma Codec64(v: Word)
    ensures Decode64(Encode64(v)) == v
  {
    Pow256Values();
    LoadAfterStore(v, 8);
  }

  lemma Codec64Inverse(s: seq<Byte>)
    requires |s| == 8
    ensures Encode64(Decode64(s)) == s
  {
    StoreAfterLoad(s);
  }

  lemma Codec32Inverse(s: seq<Byte>)
    requires |s| == 4
    ensures Encode32(Decode32(s)) == s
  {
    StoreAfterLoad(s);
  }
}
