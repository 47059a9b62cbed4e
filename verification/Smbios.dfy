/** The firmware table walker of src/client/utils/smbios.cpp, and the tables it walks: structures of a header,
    a formatted area and a set of strings, after section 6.1 of DMTF DSP0134. */
module Smbios {
  import opened Words
  import opened ByteSlices

  const HEADER_SIZE: nat := 4
  const SYSTEM_INFORMATION: Byte := 1
  const UUID_LENGTH: nat := 0x19
  const UUID_OFFSET: nat := 8

  /** No UUID, a UUID of sixteen bytes, a read past the end of the table, or an offset that would wrap around
      at 32 bits, which is as far as the walk is followed. */
  datatype Found = Absent | Uuid(bytes: seq<Byte>) | OutOfBounds | OffsetWraps

  // ---- Reading a UUID ----

  ghost predicate AllAre(s: seq<Byte>, b: Byte) {
    forall x | x in s :: x == b
  }

  /** `_byteswap_ulong` and `_byteswap_ushort`. */
  function Swap32(v: Dword): Dword {
    v % 256 * 0x100_0000 + v / 256 % 256 * 0x1_0000 + v / 256 / 256 % 256 * 256 + v / 256 / 256 / 256
  }

  function Swap16(v: int): int
    requires 0 <= v < 0x1_0000
  {
    v % 256 * 256 + v / 256
  }

  function Reversed(s: seq<Byte>): (r: seq<Byte>)
    ensures |r| == |s| && forall i | 0 <= i < |s| :: r[i] == s[|s| - 1 - i]
  {
    seq(|s|, i requires 0 <= i < |s| => s[|s| - 1 - i])
  }

  /** The number with these base-256 digits, lowest first. */
  function FromDigits(a: int, b: int, c: int, d: int): int {
    a + 256 * (b + 256 * (c + 256 * d))
  }

  lemma LoadedDword(s: seq<Byte>)
    requires |s| == 4
    ensures FromLittleEndian(s) == FromDigits(s[0], s[1], s[2], s[3])
  {
    assert s[1..][0] == s[1] && s[2..][0] == s[2] && s[3..][0] == s[3];
    assert s[1..][1..] == s[2..] && s[2..][1..] == s[3..] && s[3..][1..] == [];
    LoadedWord(s[2..]);
  }

  lemma LoadedWord(s: seq<Byte>)
    requires |s| == 2
    ensures FromLittleEndian(s) == FromDigits(s[0], s[1], 0, 0)
  {
    assert s[1..][0] == s[1] && s[1..][1..] == [];
    assert FromLittleEndian(s[1..]) == s[1];
  }

  lemma LowDigit(a: int, rest: int)
    requires 0 <= a < 256
    ensures (a + 256 * rest) % 256 == a && (a + 256 * rest) / 256 == rest
  {
  }

  lemma SwapDigits(a: Byte, b: Byte, c: Byte, d: Byte)
    ensures 0 <= FromDigits(a, b, c, d) < TWO_32
    ensures Swap32(FromDigits(a, b, c, d)) == FromDigits(d, c, b, a)
  {
    LowDigit(a, b + 256 * (c + 256 * d));
    LowDigit(b, c + 256 * d);
    LowDigit(c, d);
  }

  /** Swapping a number and storing it reverses the bytes it was loaded from. */
  lemma SwapReverses(s: seq<Byte>)
    requires |s| == 4
    ensures LittleEndian(Swap32(Decode32(s)), DWORD_SIZE) == Reversed(s)
  {
    hide LittleEndian, FromLittleEndian, Swap32, FromDigits, Reversed;
    var r := Reversed(s);
    LoadedDword(s);
    LoadedDword(r);
    SwapDigits(s[0], s[1], s[2], s[3]);
    StoreAfterLoad(r);
  }

  lemma Swap16Reverses(s: seq<Byte>)
    requires |s| == 2
    ensures 0 <= FromLittleEndian(s) < 0x1_0000
    ensures LittleEndian(Swap16(FromLittleEndian(s)), 2) == Reversed(s)
  {
    hide LittleEndian, FromLittleEndian, Reversed;
    var r := Reversed(s);
    LoadedWord(s);
    LoadedWord(r);
    LowDigit(s[0], s[1]);
    StoreAfterLoad(r);
  }

  /** The sixteen bytes with the first three fields turned from little to big endian. */
  function BigEndian(d: seq<Byte>): (r: seq<Byte>)
    requires |d| == 16
    ensures |r| == 16
  {
    Reversed(d[..4]) + Reversed(d[4..6]) + Reversed(d[6..8]) + d[8..]
  }

  /** Byte by byte: four, two and two bytes turned around, eight as they are. */
  lemma BigEndianBytes(d: seq<Byte>)
    requires |d| == 16
    ensures BigEndian(d) ==
            [d[3], d[2], d[1], d[0], d[5], d[4], d[7], d[6], d[8], d[9], d[10], d[11], d[12], d[13], d[14], d[15]]
  {
    assert Reversed(d[..4]) == [d[3], d[2], d[1], d[0]];
    assert Reversed(d[4..6]) == [d[5], d[4]];
    assert Reversed(d[6..8]) == [d[7], d[6]];
    assert d[8..] == [d[8], d[9], d[10], d[11], d[12], d[13], d[14], d[15]];
    hide Reversed;
  }

  lemma BigEndianTwice(d: seq<Byte>)
    requires |d| == 16
    ensures BigEndian(BigEndian(d)) == d
  {
    var r := BigEndian(d);
    assert r[..4] == Reversed(d[..4]) && r[4..6] == Reversed(d[4..6]);
    assert r[6..8] == Reversed(d[6..8]) && r[8..] == d[8..];
    hide Reversed;
    assert Reversed(r[..4]) == d[..4];
    assert Reversed(r[4..6]) == d[4..6];
    assert Reversed(r[6..8]) == d[6..8];
    assert d == d[..4] + d[4..6] + d[6..8] + d[8..];
  }

  /** All zeros and all ones stand for no UUID. */
  ghost function UuidOf(d: seq<Byte>): Found
    requires |d| == 16
  {
    if AllAre(d, 0) || AllAre(d, 0xFF) then Absent else Uuid(BigEndian(d))
  }

  /** `memory::is_set`. */
  method IsSet(d: seq<Byte>, b: Byte) returns (set_: bool)
    ensures set_ <==> AllAre(d, b)
  {
    var i := 0;
    while i < |d|
      invariant 0 <= i <= |d|
      invariant forall j | 0 <= j < i :: d[j] == b
    {
      if d[i] != b {
        assert d[i] in d;
        return false;
      }
      i := i + 1;
    }
    set_ := true;
  }

  /** `parse_uuid`: three swapped fields and eight copied bytes. */
  method ParseUuid(d: seq<Byte>) returns (r: Found)
    requires |d| == 16
    ensures r == UuidOf(d)
  {
    var zeros := IsSet(d, 0);
    var ones := IsSet(d, 0xFF);
    if zeros || ones {
      return Absent;
    }
    SwapReverses(d[..4]);
    Swap16Reverses(d[4..6]);
    Swap16Reverses(d[6..8]);
    hide AllAre, LittleEndian, FromLittleEndian, Reversed, Swap32, Swap16;
    var uuid := LittleEndian(Swap32(Decode32(d[..4])), DWORD_SIZE);
    uuid := uuid + LittleEndian(Swap16(FromLittleEndian(d[4..6])), 2);
    uuid := uuid + LittleEndian(Swap16(FromLittleEndian(d[6..8])), 2);
    uuid := uuid + d[8..];
    r := Uuid(uuid);
  }

  // ---- The walk ----

  predicate PairOfZeros(data: seq<Byte>, i: nat) {
    i + 1 < |data| && data[i] == 0 && data[i + 1] == 0
  }

  /** From the end of a formatted area to the pair of zeros that ends the strings, or to the last byte. */
  function Skip(data: seq<Byte>, i: nat): (r: nat)
    ensures i <= r && (r > i ==> r < |data|)
    ensures forall k | i <= k < r :: k + 1 < |data| && !PairOfZeros(data, k)
    ensures r + 1 >= |data| || PairOfZeros(data, r)
    decreases |data| - i
  {
    if i + 1 < |data| && !PairOfZeros(data, i) then Skip(data, i + 1) else i
  }

  function NextOffset(data: seq<Byte>, i: nat): nat
    requires i + HEADER_SIZE <= |data|
  {
    Skip(data, i + data[i + 1]) + 2
  }

  ghost function Find(data: seq<Byte>, i: nat): Found
    decreases |data| - i
  {
    if i + HEADER_SIZE >= |data| || data[i + 1] < HEADER_SIZE then Absent
    else if data[i] == SYSTEM_INFORMATION && data[i + 1] >= UUID_LENGTH then
      if i + UUID_OFFSET + 16 > |data| then OutOfBounds else UuidOf(data[i + UUID_OFFSET..i + UUID_OFFSET + 16])
    else if NextOffset(data, i) >= TWO_32 then OffsetWraps
    else Find(data, NextOffset(data, i))
  }

  /** `get_uuid` on the bytes of any table, well formed or not. The offset is 32 bits wide. */
  method GetUuid(data: seq<Byte>) returns (r: Found)
    requires |data| < TWO_32
    ensures r == Find(data, 0)
  {
    hide Skip, UuidOf, Find, Add32;
    var i := 0;
    while i + HEADER_SIZE < |data|
      invariant 0 <= i < TWO_32 && Find(data, 0) == Find(data, i)
      decreases |data| - i
    {
      FindOnce(data, i);
      var kind, length := data[i], data[i + 1];
      if length < HEADER_SIZE {
        return Absent;
      }
      if kind == SYSTEM_INFORMATION && length >= UUID_LENGTH {
        if i + UUID_OFFSET + 16 > |data| {
          return OutOfBounds;
        }
        r := ParseUuid(data[i + UUID_OFFSET..i + UUID_OFFSET + 16]);
        return;
      }
      if i + length + 2 >= TWO_32 {
        return OffsetWraps;
      }
      NoCarry(i, length);
      i := SkipStrings(data, Add32(i, length));
      if i + 2 >= TWO_32 {
        return OffsetWraps;
      }
      NoCarry(i, 2);
      i := Add32(i, 2);
    }
    FindOnce(data, i);
    r := Absent;
  }

  lemma FindOnce(data: seq<Byte>, i: nat)
    ensures i + HEADER_SIZE >= |data| ==> Find(data, i) == Absent
    ensures i + HEADER_SIZE < |data| ==>
              Find(data, i) ==
                if data[i + 1] < HEADER_SIZE then Absent
                else if data[i] == SYSTEM_INFORMATION && data[i + 1] >= UUID_LENGTH then
                  if i + UUID_OFFSET + 16 > |data| then OutOfBounds
                  else UuidOf(data[i + UUID_OFFSET..i + UUID_OFFSET + 16])
                else if NextOffset(data, i) >= TWO_32 then OffsetWraps
                else Find(data, NextOffset(data, i))
  {
    hide UuidOf, NextOffset;
  }

  /** The inner loop of `get_uuid`. */
  method SkipStrings(data: seq<Byte>, from: nat) returns (i: nat)
    requires |data| < TWO_32 && from < TWO_32 - 2
    ensures i == Skip(data, from)
  {
    i := from;
    while Add32(i, 1) < |data| && FromLittleEndian(data[i..i + 2]) != 0
      invariant from <= i < TWO_32 - 1
      invariant Skip(data, from) == Skip(data, i)
      decreases |data| - i
    {
      ZeroWord(data, i);
      i := Add32(i, 1);
    }
    if i + 1 < |data| {
      ZeroWord(data, i);
    }
  }

  lemma ZeroWord(data: seq<Byte>, i: nat)
    requires i + 1 < |data|
    ensures FromLittleEndian(data[i..i + 2]) == 0 <==> PairOfZeros(data, i)
  {
    LoadedWord(data[i..i + 2]);
    hide FromLittleEndian;
  }

  /** Addition of `DWORD`s. */
  function Add32(a: int, b: int): int {
    (a + b) % TWO_32
  }

  lemma NoCarry(a: nat, b: nat)
    requires a + b < TWO_32
    ensures Add32(a, b) == a + b
  {
  }

  lemma NextOffsetBound(data: seq<Byte>, i: nat)
    requires i + HEADER_SIZE < |data|
    ensures i < NextOffset(data, i) <= |data| + 252
  {
  }

  /** The offset wraps only in a table within 252 bytes of the longest there can be. */
  lemma {:induction false} WrapsOnlyNearTheLimit(data: seq<Byte>, i: nat)
    ensures Find(data, i).OffsetWraps? ==> |data| + 252 >= TWO_32
    decreases |data| - i
  {
    FindOnce(data, i);
    if i + HEADER_SIZE < |data| {
      hide Find, UuidOf;
      NextOffsetBound(data, i);
      hide NextOffset;
      WrapsOnlyNearTheLimit(data, NextOffset(data, i));
    }
  }

  // ---- Any table at all ----

  /** From a structure at `i` the walk goes on to `j`: two bytes behind the first place after the formatted area where
      a pair of zeros stands or the table has no pair left. */
  ghost predicate GoesOn(data: seq<Byte>, i: nat, j: nat) {
    && i + 4 < |data| && data[i + 1] >= 4 && !(data[i] == 1 && data[i + 1] >= 0x19)
    && i + data[i + 1] + 2 <= j < TWO_32
    && (forall k | i + data[i + 1] <= k < j - 2 :: k + 1 < |data| && !PairOfZeros(data, k))
    && (j - 1 >= |data| || PairOfZeros(data, j - 2))
  }

  /** How the walk ends at `i`: with nothing when no structure follows or one claims to be shorter than its header,
      with the UUID of a long enough structure of type 1, bytes 8 to 23, or where it would leave the table or wrap. */
  ghost predicate EndsWith(data: seq<Byte>, i: nat, r: Found) {
    if i + 4 >= |data| || data[i + 1] < 4 then r.Absent?
    else if data[i] == 1 && data[i + 1] >= 0x19 then
      if i + 24 > |data| then r.OutOfBounds? else r == UuidOf(data[i + 8..i + 24])
    else r.OffsetWraps? && forall j: nat :: !GoesOn(data, i, j)
  }

  ghost predicate IsPath(data: seq<Byte>, path: seq<nat>) {
    path != [] && forall k | 0 <= k < |path| - 1 :: GoesOn(data, path[k], path[k + 1])
  }

  /** On every table, well formed or not, the walk goes from structure to structure and ends as the last one says. */
  lemma {:induction false} WalkDecides(data: seq<Byte>, i: nat) returns (path: seq<nat>)
    ensures IsPath(data, path) && path[0] == i && EndsWith(data, path[|path| - 1], Find(data, i))
    decreases |data| - i
  {
    FindOnce(data, i);
    path := [i];
    if i + HEADER_SIZE < |data| && data[i + 1] >= HEADER_SIZE
       && !(data[i] == SYSTEM_INFORMATION && data[i + 1] >= UUID_LENGTH) {
      var next := NextOffset(data, i);
      NextGoesOn(data, i);
      hide Find, GoesOn, NextOffset, UuidOf;
      if next < TWO_32 {
        var rest := WalkDecides(data, next);
        path := [i] + rest;
        assert forall k | 0 < k < |path| :: path[k] == rest[k - 1];
      }
    }
  }

  lemma NextGoesOn(data: seq<Byte>, i: nat)
    requires i + HEADER_SIZE < |data| && data[i + 1] >= HEADER_SIZE
    requires !(data[i] == SYSTEM_INFORMATION && data[i + 1] >= UUID_LENGTH)
    ensures NextOffset(data, i) > i
    ensures NextOffset(data, i) < TWO_32 ==> GoesOn(data, i, NextOffset(data, i))
    ensures NextOffset(data, i) >= TWO_32 ==> forall j: nat :: !GoesOn(data, i, j)
  {
    var next := NextOffset(data, i);
    forall j: nat | GoesOn(data, i, j)
      ensures j == next
    {
      var here, there := PairOfZeros(data, j - 2), PairOfZeros(data, next - 2);
    }
  }

  // ---- Well-formed tables ----

  datatype Structure = Structure(kind: Byte, handle: seq<Byte>, body: seq<Byte>, strings: seq<seq<Byte>>)

  ghost predicate WellFormed(s: Structure) {
    && |s.handle| == 2 && 4 + |s.body| < 256
    && forall t | t in s.strings :: t != [] && 0 !in t
  }

  /** Each string with its zero, and one more zero. */
  function StringTail(strings: seq<seq<Byte>>): seq<Byte> {
    if strings == [] then [0] else strings[0] + [0] + StringTail(strings[1..])
  }

  /** A structure without strings still ends with two zeros. */
  function StringSet(strings: seq<seq<Byte>>): seq<Byte> {
    if strings == [] then [0, 0] else StringTail(strings)
  }

  function Formatted(s: Structure): (r: seq<Byte>)
    requires |s.handle| == 2 && 4 + |s.body| < 256
    ensures |r| == 4 + |s.body|
  {
    [s.kind, 4 + |s.body|] + s.handle + s.body
  }

  ghost function Encoding(s: Structure): seq<Byte>
    requires WellFormed(s)
  {
    Formatted(s) + StringSet(s.strings)
  }

  ghost function Table(list: seq<Structure>): seq<Byte>
    requires forall s | s in list :: WellFormed(s)
  {
    if list == [] then [] else Encoding(list[0]) + Table(list[1..])
  }

  /** The UUID of the first structure of system information that is long enough to have one. */
  ghost function FirstUuid(list: seq<Structure>): Found
    requires forall s | s in list :: WellFormed(s)
  {
    if list == [] then Absent
    else if HoldsUuid(list[0]) then UuidOf(list[0].body[4..20])
    else FirstUuid(list[1..])
  }

  predicate HoldsUuid(s: Structure) {
    s.kind == 1 && 4 + |s.body| >= 0x19
  }

  // ---- The strings end where the first pair of zeros is ----

  ghost predicate EndsInPair(t: seq<Byte>) {
    && |t| >= 2 && PairOfZeros(t, |t| - 2)
    && forall k | 0 <= k < |t| - 2 :: !PairOfZeros(t, k)
  }

  lemma {:induction false} StringTailEnds(strings: seq<seq<Byte>>)
    requires strings != [] && forall t | t in strings :: t != [] && 0 !in t
    ensures EndsInPair(StringTail(strings)) && StringTail(strings)[0] != 0
    decreases |strings|
  {
    var s, rest := strings[0], StringTail(strings[1..]);
    assert s in strings;
    assert forall t | t in strings[1..] :: t in strings;
    if |strings| > 1 {
      StringTailEnds(strings[1..]);
      hide StringTail, EndsInPair, PairOfZeros;
      OneMoreString(s, rest);
    } else {
      LastString(s);
    }
  }

  lemma LastString(s: seq<Byte>)
    requires s != [] && 0 !in s
    ensures EndsInPair(s + [0] + [0]) && (s + [0] + [0])[0] != 0
  {
    assert forall k | 0 <= k < |s| :: (s + [0] + [0])[k] == s[k] && s[k] in s;
  }

  lemma OneMoreString(s: seq<Byte>, rest: seq<Byte>)
    requires s != [] && 0 !in s && EndsInPair(rest) && rest[0] != 0
    ensures EndsInPair(s + [0] + rest) && (s + [0] + rest)[0] != 0
  {
    var all := s + [0] + rest;
    assert forall k | 0 <= k < |s| :: all[k] == s[k] && s[k] in s;
    assert forall k | 0 <= k < |rest| :: all[|s| + 1 + k] == rest[k];
    assert all[|all| - 2] == rest[|rest| - 2] && all[|all| - 1] == rest[|rest| - 1];
    forall k | 0 <= k < |all| - 2
      ensures !PairOfZeros(all, k)
    {
      if k > |s| {
        var m := k - |s| - 1;
        assert !PairOfZeros(rest, m);
        assert all[|s| + 1 + m] == rest[m] && all[|s| + 1 + (m + 1)] == rest[m + 1];
      }
    }
  }

  lemma StringSetEnds(strings: seq<seq<Byte>>)
    requires forall t | t in strings :: t != [] && 0 !in t
    ensures EndsInPair(StringSet(strings))
  {
    if strings != [] {
      StringTailEnds(strings);
    }
  }

  lemma {:induction false} SkipStops(data: seq<Byte>, i: nat, end: nat)
    requires i <= end && PairOfZeros(data, end) && forall k | i <= k < end :: !PairOfZeros(data, k)
    ensures Skip(data, i) == end
    decreases end - i
  {
    if i < end {
      SkipStops(data, i + 1, end);
    }
  }

  /** Wherever a structure stands in a table, the walk finds its header and formatted area, and goes from
      its start right to its end. */
  lemma WalkOverStructure(data: seq<Byte>, i: nat, s: Structure)
    requires WellFormed(s) && Holds(data, i, Encoding(s))
    ensures i + HEADER_SIZE < |data| && data[i] == s.kind && data[i + 1] == HEADER_SIZE + |s.body|
    ensures data[i + 2..i + HEADER_SIZE] == s.handle
    ensures i + HEADER_SIZE + |s.body| <= |data|
    ensures data[i + HEADER_SIZE..i + HEADER_SIZE + |s.body|] == s.body
    ensures Holds(data, i + HEADER_SIZE + |s.body|, StringSet(s.strings))
    ensures NextOffset(data, i) == i + |Encoding(s)|
  {
    HoldsParts(data, i, Formatted(s), StringSet(s.strings));
    FormattedStands(data, i, s);
    StringSetEnds(s.strings);
    hide StringSet, Formatted, Holds, EndsInPair;
    SkipSet(data, i + HEADER_SIZE + |s.body|, StringSet(s.strings));
  }

  lemma FormattedStands(data: seq<Byte>, i: nat, s: Structure)
    requires WellFormed(s) && Holds(data, i, Formatted(s))
    ensures i + HEADER_SIZE + |s.body| <= |data| && data[i] == s.kind && data[i + 1] == HEADER_SIZE + |s.body|
    ensures data[i + 2..i + HEADER_SIZE] == s.handle
    ensures data[i + HEADER_SIZE..i + HEADER_SIZE + |s.body|] == s.body
  {
    var front: seq<Byte> := [s.kind, HEADER_SIZE + |s.body|];
    HoldsParts(data, i, front + s.handle, s.body);
    HoldsParts(data, i, front, s.handle);
    assert data[i..i + 2] == front;
  }

  lemma SkipSet(data: seq<Byte>, at: nat, set_: seq<Byte>)
    requires Holds(data, at, set_) && EndsInPair(set_)
    ensures Skip(data, at) == at + |set_| - 2
  {
    hide Skip;
    var part := data[at..at + |set_|];
    assert forall k | 0 <= k < |set_| :: part[k] == data[at + k];
    forall k | at <= k < at + |set_| - 2
      ensures !PairOfZeros(data, k)
    {
      assert !PairOfZeros(set_, k - at);
      assert data[at + (k - at)] == set_[k - at] && data[at + (k - at + 1)] == set_[k - at + 1];
    }
    assert data[at + (|set_| - 2)] == 0 && data[at + (|set_| - 1)] == 0;
    SkipStops(data, at, at + |set_| - 2);
  }

  lemma FirstAndRest(list: seq<Structure>)
    requires list != [] && forall s | s in list :: WellFormed(s)
    ensures forall s | s in list[1..] :: WellFormed(s)
    ensures WellFormed(list[0]) && Table(list) == Encoding(list[0]) + Table(list[1..])
  {
    hide WellFormed, Encoding;
  }

  /** A table from one of its structures on. */
  lemma TableParts(data: seq<Byte>, i: nat, list: seq<Structure>)
    requires list != [] && forall s | s in list :: WellFormed(s)
    requires Holds(data, i, Table(list)) && i + |Table(list)| == |data|
    ensures Holds(data, i, Encoding(list[0]))
    ensures Holds(data, i + |Encoding(list[0])|, Table(list[1..]))
    ensures i + |Encoding(list[0])| + |Table(list[1..])| == |data|
  {
    hide *;
    FirstAndRest(list);
    HoldsParts(data, i, Encoding(list[0]), Table(list[1..]));
  }

  lemma {:induction false} FindFrom(data: seq<Byte>, i: nat, list: seq<Structure>)
    requires forall s | s in list :: WellFormed(s)
    requires Holds(data, i, Table(list)) && i + |Table(list)| == |data| < 0x1_0000_0000
    ensures Find(data, i) == FirstUuid(list)
    decreases |list|
  {
    hide *;
    if list == [] {
      NothingFound(data, i);
    } else {
      var s := list[0];
      FirstUuidStep(list);
      TableParts(data, i, list);
      WalkOverStructure(data, i, s);
      FindStep(data, i, s);
      if !HoldsUuid(s) {
        FindFrom(data, i + |Encoding(s)|, list[1..]);
      }
    }
  }

  lemma NothingFound(data: seq<Byte>, i: nat)
    requires i + |Table([])| == |data|
    ensures Find(data, i) == FirstUuid([])
  {
  }

  lemma FirstUuidStep(list: seq<Structure>)
    requires list != [] && forall s | s in list :: WellFormed(s)
    ensures forall s | s in list[1..] :: WellFormed(s)
    ensures HoldsUuid(list[0]) ==> |list[0].body| >= 20 && FirstUuid(list) == UuidOf(list[0].body[4..20])
    ensures !HoldsUuid(list[0]) ==> FirstUuid(list) == FirstUuid(list[1..])
  {
    hide UuidOf;
  }

  lemma FindStep(data: seq<Byte>, i: nat, s: Structure)
    requires i + HEADER_SIZE < |data| && data[i] == s.kind && data[i + 1] == HEADER_SIZE + |s.body|
    requires i + HEADER_SIZE + |s.body| <= |data| && data[i + HEADER_SIZE..i + HEADER_SIZE + |s.body|] == s.body
    ensures HoldsUuid(s) ==> |s.body| >= 20 && Find(data, i) == UuidOf(s.body[4..20])
    ensures !HoldsUuid(s) && NextOffset(data, i) < 0x1_0000_0000 ==> Find(data, i) == Find(data, NextOffset(data, i))
  {
    hide UuidOf, NextOffset;
    if HoldsUuid(s) {
      SubSlice(data, i + HEADER_SIZE, |s.body|, 4, 20);
    }
  }

  /** On every well-formed table, whose length is a 32-bit number, the walk stays inside, never wraps and gives
      the UUID of the first structure of system information that has one, or none. */
  lemma WalkFindsFirstUuid(list: seq<Structure>)
    requires forall s | s in list :: WellFormed(s)
    requires |Table(list)| < TWO_32
    ensures Find(Table(list), 0) == FirstUuid(list) && (FirstUuid(list).Absent? || FirstUuid(list).Uuid?)
  {
    var data := Table(list);
    assert data[0..|data|] == data;
    FindFrom(data, 0, list);
    NeverOutside(list);
  }

  lemma {:induction false} NeverOutside(list: seq<Structure>)
    requires forall s | s in list :: WellFormed(s)
    ensures FirstUuid(list).Absent? || FirstUuid(list).Uuid?
    decreases |list|
  {
    if list != [] && !HoldsUuid(list[0]) {
      NeverOutside(list[1..]);
    }
  }

  // ---- Reading a table back ----

  /** The strings of a set, up to the empty one. */
  function ReadStrings(data: seq<Byte>): seq<seq<Byte>> {
    var n := FirstZero(data);
    if n == 0 || n == |data| then [] else [data[..n]] + ReadStrings(data[n + 1..])
  }

  function FirstZero(data: seq<Byte>): (n: nat)
    ensures n <= |data| && 0 !in data[..n] && (n < |data| ==> data[n] == 0)
  {
    if data == [] || data[0] == 0 then 0 else 1 + FirstZero(data[1..])
  }

  lemma {:induction false} FirstZeroIs(data: seq<Byte>, n: nat)
    requires n < |data| && data[n] == 0 && forall k | 0 <= k < n :: data[k] != 0
    ensures FirstZero(data) == n
    decreases n
  {
    if n > 0 {
      FirstZeroIs(data[1..], n - 1);
    }
  }

  /** The structures that the walk meets. */
  function ReadTable(data: seq<Byte>, i: nat): seq<Structure>
    decreases |data| - i
  {
    if i + HEADER_SIZE >= |data| || data[i + 1] < HEADER_SIZE || i + data[i + 1] > |data| then []
    else
      var area := i + data[i + 1];
      [Structure(data[i], data[i + 2..i + HEADER_SIZE], data[i + HEADER_SIZE..area], ReadStrings(data[area..]))]
      + ReadTable(data, NextOffset(data, i))
  }

  lemma {:induction false} StringsBack(strings: seq<seq<Byte>>, after: seq<Byte>)
    requires forall t | t in strings :: t != [] && 0 !in t
    ensures ReadStrings(StringTail(strings) + after) == strings
    decreases |strings|
  {
    if strings == [] {
      NoStrings(after);
    } else {
      var s, rest := strings[0], StringTail(strings[1..]) + after;
      assert s in strings && forall t | t in strings[1..] :: t in strings;
      assert StringTail(strings) + after == s + [0] + rest;
      hide StringTail, ReadStrings;
      StringsBack(strings[1..], after);
      FirstStringBack(s, rest);
      HeadAndTail(strings);
    }
  }

  lemma NoStrings(after: seq<Byte>)
    ensures ReadStrings(StringTail([]) + after) == []
  {
  }

  lemma FirstStringBack(s: seq<Byte>, rest: seq<Byte>)
    requires s != [] && 0 !in s
    ensures ReadStrings(s + [0] + rest) == [s] + ReadStrings(rest)
  {
    var data := s + [0] + rest;
    assert forall k | 0 <= k < |s| :: data[k] == s[k] && s[k] in s;
    FirstZeroIs(data, |s|);
    assert data[..|s|] == s && data[|s| + 1..] == rest;
  }

  lemma StringSetBack(strings: seq<seq<Byte>>, after: seq<Byte>)
    requires forall t | t in strings :: t != [] && 0 !in t
    ensures ReadStrings(StringSet(strings) + after) == strings
  {
    if strings != [] {
      StringsBack(strings, after);
    }
  }

  lemma {:induction false} TableBackFrom(data: seq<Byte>, i: nat, list: seq<Structure>)
    requires forall s | s in list :: WellFormed(s)
    requires Holds(data, i, Table(list)) && i + |Table(list)| == |data|
    ensures ReadTable(data, i) == list
    decreases |list|
  {
    if list == [] {
      hide Holds, NextOffset, ReadStrings;
    } else {
      hide *;
      ReadStructure(data, i, list);
      TableParts(data, i, list);
      assert forall t | t in list[1..] :: t in list;
      TableBackFrom(data, i + |Encoding(list[0])|, list[1..]);
      HeadAndTail(list);
    }
  }

  lemma ReadStructure(data: seq<Byte>, i: nat, list: seq<Structure>)
    requires list != [] && forall s | s in list :: WellFormed(s)
    requires Holds(data, i, Table(list)) && i + |Table(list)| == |data|
    ensures ReadTable(data, i) == [list[0]] + ReadTable(data, i + |Encoding(list[0])|)
  {
    hide *;
    var s := list[0];
    TableParts(data, i, list);
    WalkOverStructure(data, i, s);
    StringsStand(data, i + HEADER_SIZE + |s.body|, s);
    ReadTableStep(data, i, s);
  }

  lemma ReadTableStep(data: seq<Byte>, i: nat, s: Structure)
    requires i + HEADER_SIZE < |data| && data[i] == s.kind && data[i + 1] == HEADER_SIZE + |s.body|
    requires data[i + 2..i + HEADER_SIZE] == s.handle
    requires i + HEADER_SIZE + |s.body| <= |data| && data[i + HEADER_SIZE..i + HEADER_SIZE + |s.body|] == s.body
    requires ReadStrings(data[i + HEADER_SIZE + |s.body|..]) == s.strings
    ensures ReadTable(data, i) == [s] + ReadTable(data, NextOffset(data, i))
  {
    hide ReadStrings, NextOffset;
  }

  lemma StringsStand(data: seq<Byte>, at: nat, s: Structure)
    requires WellFormed(s) && Holds(data, at, StringSet(s.strings))
    ensures ReadStrings(data[at..]) == s.strings
  {
    var strings := s.strings;
    var end := at + |StringSet(strings)|;
    assert data[at..] == StringSet(strings) + data[end..];
    StringSetBack(strings, data[end..]);
    hide StringSet, ReadStrings;
  }

  /** Walking a serialised list of structures reads the list back, with all its strings. */
  lemma ReadUndoesSerialise(list: seq<Structure>)
    requires forall s | s in list :: WellFormed(s)
    ensures ReadTable(Table(list), 0) == list
  {
    var data := Table(list);
    assert data[0..|data|] == data;
    TableBackFrom(data, 0, list);
  }
}
