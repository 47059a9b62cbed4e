/** The one-at-a-time hash of src/common/utils/cryptography.cpp, on 32-bit words. */
module OneAtATime {

  /** A `char` is signed: adding one to the hash adds its sign extension. */
  function Extended(c: bv8): bv32 {
    if c < 0x80 then c as bv32 else (c as bv32) | 0xFFFF_FF00
  }

  function AddShifted10(h: bv32): bv32 { h + (h << 10) }

  function XorShifted6(h: bv32): bv32 { h ^ (h >> 6) }

  function AddShifted3(h: bv32): bv32 { h + (h << 3) }

  function XorShifted11(h: bv32): bv32 { h ^ (h >> 11) }

  function AddShifted15(h: bv32): bv32 { h + (h << 15) }

  function Sum(h: bv32, a: bv32): bv32 { h + a }

  /** `hash += key[i]`. */
  function AddByte(h: bv32, c: bv8): bv32 { Sum(h, Extended(c)) }

  // ---- No step loses anything: its result settles the bits of its argument, one stretch after another ----

  lemma Sum10Stage1(a: bv32, b: bv32)
    requires AddShifted10(a) == AddShifted10(b)
    ensures a << 22 == b << 22
  {
  }

  lemma Sum10Stage2(a: bv32, b: bv32)
    requires AddShifted10(a) == AddShifted10(b) && a << 22 == b << 22
    ensures a << 12 == b << 12
  {
  }

  lemma Sum10Stage3(a: bv32, b: bv32)
    requires AddShifted10(a) == AddShifted10(b) && a << 12 == b << 12
    ensures a << 2 == b << 2
  {
  }

  lemma Sum10StageLast(a: bv32, b: bv32)
    requires AddShifted10(a) == AddShifted10(b) && a << 2 == b << 2
    ensures a == b
  {
  }

  lemma AddShifted10Injective(a: bv32, b: bv32)
    requires AddShifted10(a) == AddShifted10(b)
    ensures a == b
  {
    hide AddShifted10;
    Sum10Stage1(a, b);
    Sum10Stage2(a, b);
    Sum10Stage3(a, b);
    Sum10StageLast(a, b);
  }

  lemma AddShifted3Injective(a: bv32, b: bv32)
    requires AddShifted3(a) == AddShifted3(b)
    ensures a == b
  {
  }

  lemma Sum15Stage1(a: bv32, b: bv32)
    requires AddShifted15(a) == AddShifted15(b)
    ensures a << 17 == b << 17
  {
  }

  lemma Sum15Stage2(a: bv32, b: bv32)
    requires AddShifted15(a) == AddShifted15(b) && a << 17 == b << 17
    ensures a << 2 == b << 2
  {
  }

  lemma Sum15StageLast(a: bv32, b: bv32)
    requires AddShifted15(a) == AddShifted15(b) && a << 2 == b << 2
    ensures a == b
  {
  }

  lemma AddShifted15Injective(a: bv32, b: bv32)
    requires AddShifted15(a) == AddShifted15(b)
    ensures a == b
  {
    hide AddShifted15;
    Sum15Stage1(a, b);
    Sum15Stage2(a, b);
    Sum15StageLast(a, b);
  }

  lemma Xor6Stage1(a: bv32, b: bv32)
    requires XorShifted6(a) == XorShifted6(b)
    ensures a >> 26 == b >> 26
  {
  }

  lemma Xor6Stage2(a: bv32, b: bv32)
    requires XorShifted6(a) == XorShifted6(b) && a >> 26 == b >> 26
    ensures a >> 20 == b >> 20
  {
  }

  lemma Xor6Stage3(a: bv32, b: bv32)
    requires XorShifted6(a) == XorShifted6(b) && a >> 20 == b >> 20
    ensures a >> 14 == b >> 14
  {
  }

  lemma Xor6Stage4(a: bv32, b: bv32)
    requires XorShifted6(a) == XorShifted6(b) && a >> 14 == b >> 14
    ensures a >> 8 == b >> 8
  {
  }

  lemma Xor6Stage5(a: bv32, b: bv32)
    requires XorShifted6(a) == XorShifted6(b) && a >> 8 == b >> 8
    ensures a >> 2 == b >> 2
  {
  }

  lemma Xor6StageLast(a: bv32, b: bv32)
    requires XorShifted6(a) == XorShifted6(b) && a >> 2 == b >> 2
    ensures a == b
  {
  }

  lemma XorShifted6Injective(a: bv32, b: bv32)
    requires XorShifted6(a) == XorShifted6(b)
    ensures a == b
  {
    hide XorShifted6;
    Xor6Stage1(a, b);
    Xor6Stage2(a, b);
    Xor6Stage3(a, b);
    Xor6Stage4(a, b);
    Xor6Stage5(a, b);
    Xor6StageLast(a, b);
  }

  lemma Xor11Stage1(a: bv32, b: bv32)
    requires XorShifted11(a) == XorShifted11(b)
    ensures a >> 21 == b >> 21
  {
  }

  lemma Xor11Stage2(a: bv32, b: bv32)
    requires XorShifted11(a) == XorShifted11(b) && a >> 21 == b >> 21
    ensures a >> 16 == b >> 16
  {
  }

  lemma Xor11Stage3(a: bv32, b: bv32)
    requires XorShifted11(a) == XorShifted11(b) && a >> 16 == b >> 16
    ensures a >> 10 == b >> 10
  {
  }

  lemma Xor11Stage4(a: bv32, b: bv32)
    requires XorShifted11(a) == XorShifted11(b) && a >> 10 == b >> 10
    ensures a >> 5 == b >> 5
  {
  }

  lemma Xor11StageLast(a: bv32, b: bv32)
    requires XorShifted11(a) == XorShifted11(b) && a >> 5 == b >> 5
    ensures a == b
  {
  }

  lemma XorShifted11Injective(a: bv32, b: bv32)
    requires XorShifted11(a) == XorShifted11(b)
    ensures a == b
  {
    hide XorShifted11;
    Xor11Stage1(a, b);
    Xor11Stage2(a, b);
    Xor11Stage3(a, b);
    Xor11Stage4(a, b);
    Xor11StageLast(a, b);
  }

  lemma ExtendedInjective(c: bv8, d: bv8)
    requires Extended(c) == Extended(d)
    ensures c == d
  {
  }

  function Difference(x: bv32, h: bv32): bv32 { x - h }

  lemma SumUndone(h: bv32, a: bv32)
    ensures Difference(Sum(h, a), h) == a && Difference(Sum(h, a), a) == h
  {
  }

  lemma SumKeepsRight(h: bv32, a: bv32, b: bv32)
    requires Sum(h, a) == Sum(h, b)
    ensures a == b
  {
    hide Sum, Difference;
    SumUndone(h, a);
    SumUndone(h, b);
  }

  lemma SumKeepsLeft(g: bv32, h: bv32, a: bv32)
    requires Sum(g, a) == Sum(h, a)
    ensures g == h
  {
    hide Sum, Difference;
    SumUndone(g, a);
    SumUndone(h, a);
  }

  lemma AddByteKeepsByte(h: bv32, c: bv8, d: bv8)
    requires AddByte(h, c) == AddByte(h, d)
    ensures c == d
  {
    hide Extended, Sum;
    SumKeepsRight(h, Extended(c), Extended(d));
    ExtendedInjective(c, d);
  }

  lemma AddByteKeepsState(g: bv32, h: bv32, c: bv8)
    requires AddByte(g, c) == AddByte(h, c)
    ensures g == h
  {
    hide Extended, Sum;
    SumKeepsLeft(g, h, Extended(c));
  }

  // ---- The hash ----

  /** One round of the loop. */
  function Absorb(h: bv32, c: bv8): bv32 {
    XorShifted6(AddShifted10(AddByte(h, c)))
  }

  function Absorbed(h: bv32, key: seq<bv8>): bv32 {
    if key == [] then h else Absorb(Absorbed(h, key[..|key| - 1]), key[|key| - 1])
  }

  function Finished(h: bv32): bv32 {
    AddShifted15(XorShifted11(AddShifted3(h)))
  }

  function Hash(key: seq<bv8>): bv32 {
    Finished(Absorbed(0, key))
  }

  /** `compute`, on a key short enough for its 32-bit counter to reach the end. */
  method Compute(key: seq<bv8>) returns (hash: bv32)
    requires |key| < 0x1_0000_0000
    ensures hash == Hash(key)
  {
    hide AddByte, AddShifted10, XorShifted6, AddShifted3, XorShifted11, AddShifted15;
    hash := 0;
    var i := 0;
    while i < |key|
      invariant 0 <= i <= |key|
      invariant hash == Absorbed(0, key[..i])
    {
      assert key[..i + 1][..i] == key[..i];
      hash := AddByte(hash, key[i]);
      hash := AddShifted10(hash);
      hash := XorShifted6(hash);
      i := i + 1;
    }
    assert key[..i] == key;
    hash := AddShifted3(hash);
    hash := XorShifted11(hash);
    hash := AddShifted15(hash);
  }

  lemma KnownRounds()
    ensures Absorb(0, 0x61) == 0x18270 && Absorb(0x18270, 0x62) == 0x614F9F9 && Absorb(0, 0xFF) == 0xFC000410
    ensures Finished(0x18270) == 0xCA2E9442 && Finished(0x614F9F9) == 0x45E61E58 && Finished(0xFC000410) == 0xAE65A494
  {
  }

  /** Hashes one can look up: of "a", of "ab", and of a byte that counts as -1. */
  lemma KnownHashes()
    ensures Hash([0x61]) == 0xCA2E9442
    ensures Hash([0x61, 0x62]) == 0x45E61E58
    ensures Hash([0xFF]) == 0xAE65A494
  {
    KnownRounds();
    hide Absorb, Finished;
    var a: seq<bv8>, ab: seq<bv8>, last: seq<bv8> := [0x61], [0x61, 0x62], [0xFF];
    assert a[..0] == [] && last[..0] == [] && ab[..1] == a;
    assert Absorbed(0, a) == Absorb(Absorbed(0, a[..0]), 0x61);
    assert Absorbed(0, last) == Absorb(Absorbed(0, last[..0]), 0xFF);
    assert Absorbed(0, ab) == Absorb(Absorbed(0, ab[..1]), 0x62);
  }

  /** A round loses nothing of the state, and nothing of the byte. */
  lemma AbsorbInjective(g: bv32, h: bv32, c: bv8, d: bv8)
    requires Absorb(g, c) == Absorb(h, d)
    ensures g == h <==> c == d
  {
    hide XorShifted6, AddShifted10, AddByte;
    XorShifted6Injective(AddShifted10(AddByte(g, c)), AddShifted10(AddByte(h, d)));
    AddShifted10Injective(AddByte(g, c), AddByte(h, d));
    if g == h {
      AddByteKeepsByte(g, c, d);
    }
    if c == d {
      AddByteKeepsState(g, h, c);
    }
  }

  lemma FinishedInjective(g: bv32, h: bv32)
    requires Finished(g) == Finished(h)
    ensures g == h
  {
    hide AddShifted15, XorShifted11, AddShifted3;
    AddShifted15Injective(XorShifted11(AddShifted3(g)), XorShifted11(AddShifted3(h)));
    XorShifted11Injective(AddShifted3(g), AddShifted3(h));
    AddShifted3Injective(g, h);
  }

  lemma {:induction false} AbsorbedInjective(g: bv32, h: bv32, key: seq<bv8>)
    requires Absorbed(g, key) == Absorbed(h, key)
    ensures g == h
    decreases |key|
  {
    if key != [] {
      var n := |key| - 1;
      hide Absorb;
      AbsorbInjective(Absorbed(g, key[..n]), Absorbed(h, key[..n]), key[n], key[n]);
      AbsorbedInjective(g, h, key[..n]);
    }
  }

  lemma {:induction false} AbsorbedInParts(h: bv32, key: seq<bv8>, k: nat)
    requires k <= |key|
    ensures Absorbed(h, key) == Absorbed(Absorbed(h, key[..k]), key[k..])
    decreases |key|
  {
    var n := |key| - 1;
    if k == |key| {
      assert key[..k] == key && key[k..] == [];
    } else {
      hide Absorb;
      AbsorbedInParts(h, key[..n], k);
      assert key[..n][..k] == key[..k] && key[..n][k..] == key[k..][..n - k];
    }
  }

  /** Two keys that end alike collide exactly when the states before their common end do. */
  lemma CommonEnd(a: seq<bv8>, b: seq<bv8>, end: seq<bv8>)
    ensures Hash(a + end) == Hash(b + end) <==> Absorbed(0, a) == Absorbed(0, b)
  {
    hide Absorbed, Finished;
    AbsorbedInParts(0, a + end, |a|);
    AbsorbedInParts(0, b + end, |b|);
    assert (a + end)[..|a|] == a && (a + end)[|a|..] == end;
    assert (b + end)[..|b|] == b && (b + end)[|b|..] == end;
    if Hash(a + end) == Hash(b + end) {
      FinishedInjective(Absorbed(0, a + end), Absorbed(0, b + end));
      AbsorbedInjective(Absorbed(0, a), Absorbed(0, b), end);
    }
  }

  /** Keys of one length that differ in exactly one byte have different hashes. */
  lemma OneByteMatters(a: seq<bv8>, b: seq<bv8>, p: nat)
    requires |a| == |b| && p < |a| && a[p] != b[p]
    requires forall i | 0 <= i < |a| && i != p :: a[i] == b[i]
    ensures Hash(a) != Hash(b)
  {
    var start, end := a[..p], a[p + 1..];
    assert a == (start + [a[p]]) + end;
    assert b == (start + [b[p]]) + end;
    CommonEnd(start + [a[p]], start + [b[p]], end);
    assert (start + [a[p]])[..p] == start && (start + [b[p]])[..p] == start;
    hide Hash, Absorb;
    if Absorbed(0, start + [a[p]]) == Absorbed(0, start + [b[p]]) {
      AbsorbInjective(Absorbed(0, start), Absorbed(0, start), a[p], b[p]);
    }
  }
}
