/** The trampoline allocator of src/common/utils/hook.cpp: a neighbourhood search for a region that a
    32-bit branch can reach, and a pool of such regions that hands out blocks by bumping an offset. */
module NearMemory {
  import opened Options
  import opened Words
  import opened CodeMemory

  /** `is_relatively_far`: 64-bit unsigned difference, truncated to 32 bits and compared. */
  predicate IsRelativelyFar(pointer: Word, data: Word, offset: int) {
    var diff := Signed64(Wrap(data - Wrap(pointer + offset)));
    diff != Signed32(diff)
  }

  /** The displacement a branch field stores: the low 32 bits of the difference. */
  function Displacement(pointer: Word, data: Word, offset: int): Dword {
    (data - Wrap(pointer + offset)) % TWO_32
  }

  /** A branch at `pointer` whose displacement counts from `offset` bytes later reaches `data`. */
  predicate Reaches(pointer: Word, offset: int, d: int, data: Word) {
    FitsInt32(d) && Wrap(pointer + offset + d) == data
  }

  /** The predicate is false exactly when some 32-bit displacement reaches the target modulo 2^64,
      and then the displacement the patcher stores is one that does. */
  lemma FarMeansUnreachable(pointer: Word, data: Word, offset: int)
    ensures !IsRelativelyFar(pointer, data, offset) <==> exists d: int :: Reaches(pointer, offset, d, data)
    ensures !IsRelativelyFar(pointer, data, offset) ==>
              Reaches(pointer, offset, Signed32(Displacement(pointer, data, offset)), data)
  {
    var from := Wrap(pointer + offset);
    FarFromWord(from, data);
    var diff := Signed64(Wrap(data - from));
    WrapPlus(pointer + offset, diff);
    if !IsRelativelyFar(pointer, data, offset) {
      assert Reaches(pointer, offset, diff, data);
    }
    forall d: int | Reaches(pointer, offset, d, data)
      ensures !IsRelativelyFar(pointer, data, offset)
    {
      WrapPlus(pointer + offset, d);
      assert diff == d;
    }
  }

  lemma FarFromWord(from: Word, data: Word)
    ensures var diff := Signed64(Wrap(data - from));
            && (diff == Signed32(diff) ==> Signed32((data - from) % TWO_32) == diff && Wrap(from + diff) == data)
            && forall d: int | FitsInt32(d) && Wrap(from + d) == data :: diff == d && Signed32(d) == d
  {
    var diff := Signed64(Wrap(data - from));
    SignedDifference(from, data);
    SameLowBits(data - from, diff);
    Signed32Fits(diff);
    hide Signed32, Signed64, Wrap;
    forall d: int | FitsInt32(d) && Wrap(from + d) == data
      ensures diff == d && Signed32(d) == d
    {
      OnlyOneDifference(from, data, d, diff);
      Signed32Fits(d);
    }
  }

  /** The signed difference is the difference up to a multiple of 2^64. */
  lemma SignedDifference(from: Word, data: Word)
    ensures var diff := Signed64(Wrap(data - from));
            && (diff == data - from || diff == data - from + TWO_64 || diff == data - from - TWO_64)
            && -TWO_64 / 2 <= diff < TWO_64 / 2
            && Wrap(from + diff) == data
  {
  }

  lemma SameLowBits(x: int, y: int)
    requires x == y || x == y + TWO_64 || x == y - TWO_64
    ensures x % TWO_32 == y % TWO_32 && Signed32(x % TWO_32) == Signed32(y)
  {
  }

  lemma Signed32Fits(d: int)
    ensures d == Signed32(d) <==> FitsInt32(d)
  {
  }

  lemma OnlyOneDifference(from: Word, data: Word, d: int, e: int)
    requires FitsInt32(d) && -TWO_64 / 2 <= e < TWO_64 / 2 && Wrap(from + d) == data == Wrap(from + e)
    ensures d == e
  {
  }

  // ---- The neighbourhood search ----

  /** Allocation granularities are powers of two, which are the divisors of 2^31 large enough for a block. */
  predicate IsGranularity(g: nat) {
    16 <= g && TWO_31 % g == 0
  }

  /** The system as it is when a region is asked for. It hands out the regions at `grants` when asked for
      them; asked for a region at address 0, the null pointer, it picks a place of its own, if it has one. */
  datatype System = System(grants: set<Word>, anywhere: Option<Word>) {
    function Answer(t: Word): Option<Word> {
      if t == 0 then anywhere else if t in grants then Some(t) else None
    }

    /** Everything it could hand out. */
    function Offered(): (o: set<Word>)
      ensures forall t: Word :: Answer(t).Some? ==> Answer(t).value in o
    {
      (grants - {0}) + if anywhere.Some? then {anywhere.value} else {}
    }
  }

  predicate Willing(s: System, t: Word) {
    s.Answer(t).Some?
  }

  /** The search over unwrapped addresses: probe `u + g`, `u + 2g`, ... while the probe is in branch range,
      until the system is willing. */
  function Scan(base: Word, g: nat, s: System, u: int): Option<Word>
    requires IsGranularity(g)
    decreases base + TWO_32 - u
  {
    var next := u + g;
    if !FitsInt32(next - base - 5) then None
    else if Willing(s, Wrap(next)) then Some(Wrap(next))
    else Scan(base, g, s, next)
  }

  /** Where the search starts: 2 GiB below the base, rounded down to the granularity. */
  function ScanStart(base: Word, g: nat): int
    requires IsGranularity(g)
  {
    base - TWO_31 - base % g
  }

  /** The probe at which the search ends. */
  function NearestProbe(base: Word, g: nat, s: System): Option<Word>
    requires IsGranularity(g)
  {
    Scan(base, g, s, ScanStart(base, g))
  }

  /** What the search returns: the system's answer to the probe, which at address 0 may be any place. */
  function NearestGrant(base: Word, g: nat, s: System): Option<Word>
    requires IsGranularity(g)
  {
    match NearestProbe(base, g, s)
    case None => None
    case Some(t) => s.Answer(t)
  }

  /** The addresses worth probing: aligned and reachable by a 32-bit branch at the base. */
  predicate IsCandidate(base: Word, g: nat, t: Word)
    requires g > 0
  {
    t % g == 0 && !IsRelativelyFar(base, t, 5)
  }

  lemma FarUnwrapped(base: Word, u: int)
    requires -TWO_64 / 2 <= u - base - 5 < TWO_64 / 2
    ensures IsRelativelyFar(base, Wrap(u), 5) <==> !FitsInt32(u - base - 5)
  {
    var d := u - base - 5;
    WrapPlus(u, -(base + 5));
    WrapPlus(base + 5, d);
    DifferenceOfWrapped(base + 5, d, Wrap(u));
  }

  lemma DifferenceOfWrapped(from: int, d: int, t: Word)
    requires -TWO_64 / 2 <= d < TWO_64 / 2
    requires Wrap(Wrap(from) + d) == t
    ensures Signed64(Wrap(t - Wrap(from))) == d
    ensures d == Signed32(d) <==> FitsInt32(d)
  {
  }

  // Facts about multiples of a granularity.

  lemma MultiplePlus(u: int, g: nat)
    requires g > 0 && u % g == 0
    ensures (u + g) % g == 0
  {
    var q := u / g;
    assert u + g == (q + 1) * g;
    MultipleMod(q + 1, g);
  }

  lemma MultipleMod(q: int, g: nat)
    requires g > 0
    ensures (q * g) % g == 0
  {
    assert q * g == q * g + 0;
    DivModUnique(q * g, g, q, 0);
  }

  lemma ProductGap(a: int, b: int, g: nat)
    requires a > b
    ensures a * g >= b * g + g
  {
    assert a * g - b * g - g == (a - b - 1) * g;
    assert (a - b - 1) * g >= 0;
  }

  lemma DivModUnique(x: int, g: nat, q: int, r: int)
    requires g > 0 && 0 <= r < g && x == q * g + r
    ensures x / g == q && x % g == r
  {
    var q' := x / g;
    assert x == g * q' + x % g;
    if q > q' {
      ProductGap(q, q', g);
    } else if q < q' {
      ProductGap(q', q, g);
    }
  }

  /** Two multiples of `g` in order are at least `g` apart. */
  lemma MultiplesApart(u: int, v: int, g: nat)
    requires g > 0 && u % g == 0 && v % g == 0 && u < v
    ensures u + g <= v
  {
    var a, b := u / g, v / g;
    assert u == g * a && v == g * b;
    if a < b {
      ProductGap(b, a, g);
    } else if b < a {
      ProductGap(a, b, g);
    }
  }

  lemma GranularityDividesWords(g: nat, c: int)
    requires IsGranularity(g)
    ensures (c * TWO_31) % g == 0
  {
    var k := TWO_31 / g;
    assert c * TWO_31 == (c * k) * g by {
      assert TWO_31 == k * g;
    }
    MultipleMod(c * k, g);
  }

  lemma ModShift(x: int, g: nat, c: int)
    requires IsGranularity(g)
    ensures (x + c * TWO_31) % g == x % g
  {
    GranularityDividesWords(g, c);
    var q := x / g + (c * TWO_31) / g;
    assert x + c * TWO_31 == q * g + x % g;
    DivModUnique(x + c * TWO_31, g, q, x % g);
  }

  lemma WrapKeepsMod(x: int, g: nat)
    requires IsGranularity(g)
    ensures Wrap(x) % g == x % g
  {
    var c := x / TWO_64;
    assert Wrap(x) == x + (-c * TWO_32 * 2) * TWO_31;
    ModShift(x, g, -c * TWO_32 * 2);
  }

  /** Masking off the low bits of the wrapped start gives the wrapped, rounded-down start. */
  lemma ScanStartAligned(base: Word, g: nat)
    requires IsGranularity(g)
    ensures ScanStart(base, g) % g == 0
    ensures var low := Wrap(base - TWO_31); low >= low % g && low - low % g == Wrap(ScanStart(base, g))
  {
    var low := Wrap(base - TWO_31);
    WrapKeepsMod(base - TWO_31, g);
    ModShift(base, g, -1);
    RoundDown(base - TWO_31, g);
    RoundDown(low, g);
    WrapPlus(base - TWO_31, -(base % g));
    RoundedWord(low, low % g);
  }

  lemma RoundedWord(low: Word, r: nat)
    requires r <= low
    ensures Wrap(low - r) == low - r
  {
  }

  lemma RoundDown(x: int, g: nat)
    requires g > 0
    ensures (x - x % g) % g == 0
    ensures x >= 0 ==> x >= x % g
  {
    var q := x / g;
    assert x == g * q + x % g;
    DivModUnique(x - x % g, g, q, 0);
    if q < 0 {
      ProductGap(0, q, g);
    } else {
      assert g * q >= 0;
    }
  }

  lemma GranularityBound(g: nat)
    requires IsGranularity(g)
    ensures g <= TWO_31
  {
  }

  /** The signed distance a branch at `base` has to cover to reach `t`. */
  function Distance(base: Word, t: Word): int {
    Signed64(Wrap(t - Wrap(base + 5)))
  }

  /** A candidate, unwrapped to the address the search steps through. */
  lemma CandidateUnwrapped(base: Word, g: nat, t: Word)
    requires IsGranularity(g) && IsCandidate(base, g, t)
    ensures var v := base + 5 + Distance(base, t);
            Wrap(v) == t && v % g == 0 && FitsInt32(Distance(base, t)) && v > ScanStart(base, g)
  {
    var v := base + 5 + Distance(base, t);
    FarFromWord(Wrap(base + 5), t);
    WrapPlus(base + 5, Distance(base, t));
    WrapKeepsMod(v, g);
    assert base % g >= 0;
  }

  lemma UnwrappedCandidate(base: Word, g: nat, v: int)
    requires IsGranularity(g) && v % g == 0 && FitsInt32(v - base - 5)
    ensures IsCandidate(base, g, Wrap(v)) && Distance(base, Wrap(v)) == v - base - 5
  {
    assert g > 0;
    FarUnwrapped(base, v);
    WrapKeepsMod(v, g);
    DistanceUnwrapped(base, v);
    hide IsRelativelyFar, Distance, Wrap, IsGranularity;
  }

  lemma DistanceUnwrapped(base: Word, v: int)
    requires FitsInt32(v - base - 5)
    ensures Distance(base, Wrap(v)) == v - base - 5
  {
    WrapPlus(base + 5, v - base - 5);
    DifferenceOfWrapped(base + 5, v - base - 5, Wrap(v));
    hide Signed64, Wrap;
  }

  /** A scan from `u` ends at a candidate the system is willing to hand out, and everything it passed over
      was refused. */
  lemma {:induction false} ScanFinds(base: Word, g: nat, s: System, u: int)
    requires IsGranularity(g) && u % g == 0 && ScanStart(base, g) <= u
    ensures var r := Scan(base, g, s, u);
            r.Some? ==>
              && Willing(s, r.value)
              && IsCandidate(base, g, r.value)
              && u < base + 5 + Distance(base, r.value)
              && forall v: int | u < v < base + 5 + Distance(base, r.value) && v % g == 0 :: !Willing(s, Wrap(v))
    decreases base + TWO_32 - u
  {
    hide Willing;
    var next := u + g;
    MultiplePlus(u, g);
    if FitsInt32(next - base - 5) {
      UnwrappedCandidate(base, g, next);
      if !Willing(s, Wrap(next)) {
        ScanFinds(base, g, s, next);
      }
      forall v: int | u < v && v % g == 0
        ensures v >= next
      {
        MultiplesApart(u, v, g);
      }
    }
  }

  /** With room for the five branch bytes below the next boundary, an empty scan tried everything in range. */
  lemma {:induction false} ScanExhausts(base: Word, g: nat, s: System, u: int)
    requires IsGranularity(g) && u % g == 0 && ScanStart(base, g) <= u
    requires base % g <= g - 5
    requires Scan(base, g, s, u).None?
    ensures forall v: int | u < v && v % g == 0 && FitsInt32(v - base - 5) :: !Willing(s, Wrap(v))
    decreases base + TWO_32 - u
  {
    hide Willing;
    var next := u + g;
    MultiplePlus(u, g);
    if FitsInt32(next - base - 5) {
      ScanExhausts(base, g, s, next);
    }
    forall v: int | u < v && v % g == 0 && FitsInt32(v - base - 5)
      ensures !Willing(s, Wrap(v))
    {
      MultiplesApart(u, v, g);
    }
  }

  /** The search ends at an aligned address within reach that the system is willing to answer for, and no
      candidate at a lower displacement was on offer. */
  lemma NearestProbeIsReachable(base: Word, g: nat, s: System)
    requires IsGranularity(g)
    ensures var r := NearestProbe(base, g, s);
            r.Some? ==>
              && Willing(s, r.value)
              && IsCandidate(base, g, r.value)
              && forall t: Word | IsCandidate(base, g, t) && Distance(base, t) < Distance(base, r.value) ::
                   !Willing(s, t)
  {
    ScanStartAligned(base, g);
    ScanFinds(base, g, s, ScanStart(base, g));
    hide Willing;
    var r := NearestProbe(base, g, s);
    if r.Some? {
      forall t: Word | IsCandidate(base, g, t) && Distance(base, t) < Distance(base, r.value)
        ensures !Willing(s, t)
      {
        CandidateUnwrapped(base, g, t);
      }
    }
  }

  /** With room below the next boundary, a search without a result was refused everywhere. */
  lemma SearchTriesAll(base: Word, g: nat, s: System, t: Word)
    requires IsGranularity(g) && base % g <= g - 5
    requires NearestProbe(base, g, s).None? && IsCandidate(base, g, t)
    ensures !Willing(s, t)
  {
    hide Willing;
    ScanStartAligned(base, g);
    ScanExhausts(base, g, s, ScanStart(base, g));
    CandidateUnwrapped(base, g, t);
  }

  /** The search gives up only when every aligned reachable address was refused, for every system there
      can be, exactly when the base lies at least five bytes below the next boundary. For other bases the
      very first probe counts as too far and the search gives up at once. */
  lemma SearchIsCompleteExactlyWhen(base: Word, g: nat)
    requires IsGranularity(g)
    ensures base % g <= g - 5 <==>
            forall s: System | NearestGrant(base, g, s).None? ::
              forall t: Word | IsCandidate(base, g, t) :: !Willing(s, t)
    ensures base % g > g - 5 ==> forall s: System :: NearestProbe(base, g, s).None?
  {
    if base % g <= g - 5 {
      forall s: System, t: Word | NearestGrant(base, g, s).None? && IsCandidate(base, g, t)
        ensures !Willing(s, t)
      {
        NearestProbeIsReachable(base, g, s);
        SearchTriesAll(base, g, s, t);
      }
    } else {
      var second := ScanStart(base, g) + g + g;
      ScanStartAligned(base, g);
      GranularityBound(g);
      MultiplePlus(ScanStart(base, g), g);
      MultiplePlus(ScanStart(base, g) + g, g);
      UnwrappedCandidate(base, g, second);
      var s := System({Wrap(second)}, Some(Wrap(second)));
      assert NearestGrant(base, g, s).None?;
      assert IsCandidate(base, g, Wrap(second)) && Willing(s, Wrap(second));
    }
  }

  // ---- The null pointer among the probes ----

  /** The search ends at address 0, and what the system picks instead is out of reach. */
  predicate Strays(base: Word, g: nat, s: System)
    requires IsGranularity(g)
  {
    && NearestProbe(base, g, s) == Some(0)
    && s.anywhere.Some? && IsRelativelyFar(base, s.anywhere.value, 5)
  }

  /** What the search returns was offered by the system, and is out of reach exactly when it was the
      answer to the null pointer and the system picked a place out of reach. */
  lemma GrantIsReachableExactlyWhen(base: Word, g: nat, s: System)
    requires IsGranularity(g)
    ensures var r := NearestGrant(base, g, s);
            && (r.None? <==> NearestProbe(base, g, s).None?)
            && (r.Some? ==>
                  && r.value in s.Offered()
                  && (IsRelativelyFar(base, r.value, 5) <==> Strays(base, g, s))
                  && (NearestProbe(base, g, s) != Some(0) ==> IsCandidate(base, g, r.value)))
  {
    NearestProbeIsReachable(base, g, s);
    hide IsRelativelyFar, NearestProbe;
  }

  /** The bases from which the null pointer is within reach: the lowest 2 GiB, less the branch, and the
      highest. */
  lemma NullIsInReachExactlyWhen(base: Word)
    ensures !IsRelativelyFar(base, 0, 5) <==> base <= TWO_31 - 5 || base + 5 > TWO_64 - TWO_31
  {
    if base + 5 <= TWO_64 / 2 {
      FarUnwrapped(base, 0);
    } else {
      FarUnwrapped(base, TWO_64);
    }
  }

  const ELSEWHERE: Word := 0x4000_0000_0000_0000

  lemma ElsewhereIsFar(base: Word)
    requires !IsRelativelyFar(base, 0, 5)
    ensures IsRelativelyFar(base, ELSEWHERE, 5)
  {
    NullIsInReachExactlyWhen(base);
    if base <= TWO_31 - 5 {
      FarUnwrapped(base, ELSEWHERE);
    } else {
      FarUnwrapped(base, ELSEWHERE + TWO_64);
      assert Wrap(ELSEWHERE + TWO_64) == ELSEWHERE;
    }
  }

  /** Whatever the system, the search stays within reach, exactly when the null pointer is not within reach
      of the base or the search gives up at once. */
  lemma SearchStaysInReachExactlyWhen(base: Word, g: nat)
    requires IsGranularity(g)
    ensures (forall s: System :: !Strays(base, g, s)) <==> IsRelativelyFar(base, 0, 5) || base % g > g - 5
  {
    if IsRelativelyFar(base, 0, 5) {
      forall s: System
        ensures !Strays(base, g, s)
      {
        NearestProbeIsReachable(base, g, s);
      }
    } else if base % g > g - 5 {
      SearchIsCompleteExactlyWhen(base, g);
    } else {
      NullIsProbed(base, g, System({}, Some(ELSEWHERE)));
      ElsewhereIsFar(base);
      assert Strays(base, g, System({}, Some(ELSEWHERE)));
    }
  }

  lemma NullIsProbed(base: Word, g: nat, s: System)
    requires IsGranularity(g) && base % g <= g - 5 && !IsRelativelyFar(base, 0, 5)
    requires s.grants == {} && s.anywhere.Some?
    ensures NearestProbe(base, g, s) == Some(0)
  {
    NearestProbeIsReachable(base, g, s);
    assert IsCandidate(base, g, 0) && Willing(s, 0);
    if NearestProbe(base, g, s).None? {
      SearchTriesAll(base, g, s, 0);
    }
    hide IsRelativelyFar;
  }

  /** For a site in the lowest 2 GiB and a system that gives a user process nothing in the upper half of the
      address space, the null pointer is the first probe that can be answered. */
  lemma LowSitesAskForNull(base: Word, g: nat, s: System)
    requires IsGranularity(g) && base % g <= g - 5 && base <= TWO_31 - 5
    requires s.anywhere.Some? && forall b | b in s.grants :: b < TWO_64 / 2
    ensures NearestProbe(base, g, s) == Some(0)
  {
    hide *;
    NullDistance(base);
    NullIsInReachExactlyWhen(base);
    NullAtTheLatest(base, g, s);
    var t := NearestProbe(base, g, s).value;
    CandidateUnwrapped(base, g, t);
    DistanceFits(base, t);
    HighWhenNegative(base + 5 + Distance(base, t), t);
    UnwillingAbove(s, t);
  }

  lemma UnwillingAbove(s: System, t: Word)
    requires forall b | b in s.grants :: b < TWO_64 / 2
    ensures t >= TWO_64 / 2 ==> !Willing(s, t)
  {
  }

  lemma NullDistance(base: Word)
    requires base <= TWO_31 - 5
    ensures Distance(base, 0) == -(base + 5)
  {
    var x: int := base + 5;
    assert Wrap(x) == x;
    assert Wrap(0 - x) == TWO_64 - x;
    hide Wrap;
  }

  lemma DistanceFits(base: Word, t: Word)
    ensures FitsInt32(Distance(base, t)) && base >= 0 ==> base + 5 + Distance(base, t) >= -TWO_31
  {
    hide Distance;
  }

  /** When the null pointer is within reach and gets an answer, the search ends there or before. */
  lemma NullAtTheLatest(base: Word, g: nat, s: System)
    requires IsGranularity(g) && base % g <= g - 5 && !IsRelativelyFar(base, 0, 5) && s.anywhere.Some?
    ensures var r := NearestProbe(base, g, s);
            && r.Some? && Willing(s, r.value) && IsCandidate(base, g, r.value)
            && Distance(base, r.value) <= Distance(base, 0)
  {
    NearestProbeIsReachable(base, g, s);
    assert IsCandidate(base, g, 0) && Willing(s, 0);
    hide Willing, IsCandidate, NearestProbe, IsRelativelyFar, Distance;
    if NearestProbe(base, g, s).None? {
      SearchTriesAll(base, g, s, 0);
    }
  }

  lemma HighWhenNegative(v: int, t: Word)
    requires -TWO_31 <= v <= 0 && Wrap(v) == t
    ensures t == 0 || t >= TWO_64 / 2
  {
  }

  /** `allocate_somewhere_near`. The re-check after a successful allocation repeats the one before it, on
      the address probed and not on the answer, so its branch is never taken and is not written out. */
  method AllocateSomewhereNear(base: Word, granularity: nat, s: System) returns (r: Option<Word>)
    requires IsGranularity(granularity)
    ensures r == NearestGrant(base, granularity, s)
    ensures r.Some? ==> r.value in s.Offered()
    ensures r.Some? && (s.anywhere.None? || IsRelativelyFar(base, 0, 5)) ==> IsCandidate(base, granularity, r.value)
  {
    NearestProbeIsReachable(base, granularity, s);
    GrantIsReachableExactlyWhen(base, granularity, s);
    GranularityBound(granularity);
    ScanStartAligned(base, granularity);
    hide Strays;
    var target := Wrap(base - TWO_31);
    target := target - target % granularity;
    ghost var u := ScanStart(base, granularity);
    while true
      invariant target == Wrap(u) && u % granularity == 0
      invariant ScanStart(base, granularity) <= u < base + 5 + TWO_31
      invariant NearestProbe(base, granularity, s) == Scan(base, granularity, s, u)
      decreases base + TWO_32 - u
    {
      WrapPlus(u, granularity);
      MultiplePlus(u, granularity);
      target := Wrap(target + granularity);
      u := u + granularity;
      FarUnwrapped(base, u);
      if IsRelativelyFar(base, target, 5) {
        return None;
      }
      var res := s.Answer(target);
      if res.Some? {
        return res;
      }
    }
  }

  // ---- The pool of regions ----

  /** The class `memory`: a region whose first `offset` bytes have been handed out. */
  datatype Region = Region(buffer: Word, length: nat, offset: nat) {
    function GetPtr(): Word {
      Wrap(buffer + offset)
    }
  }

  datatype Grant = Block(at: Word) | NullPointer | OutOfReach

  ghost predicate ValidPools(pools: seq<Region>, g: nat) {
    && (forall r | r in pools :: 0 < r.buffer && r.length == g && r.offset <= g && r.buffer + g <= TWO_64)
    && (forall i, j | 0 <= i < j < |pools| :: Apart(pools[i].buffer, g, pools[j].buffer, g))
  }

  /** The system only offers regions that overlap no region it has given out before, and none at address 0:
      that answer is its refusal. */
  ghost predicate FreshGrants(pools: seq<Region>, g: nat, grants: set<Word>) {
    forall b | b in grants ::
      && 0 < b && b + g <= TWO_64
      && forall r | r in pools :: Apart(b, g, r.buffer, g)
  }

  predicate Serves(r: Region, address: Word, size: nat) {
    !IsRelativelyFar(address, r.GetPtr(), 5) && r.offset + size <= r.length
  }

  function FirstFit(pools: seq<Region>, address: Word, size: nat): (i: nat)
    ensures i <= |pools|
    ensures i < |pools| ==> Serves(pools[i], address, size)
    ensures forall j | 0 <= j < i :: !Serves(pools[j], address, size)
  {
    if pools == [] || Serves(pools[0], address, size) then 0
    else 1 + FirstFit(pools[1..], address, size)
  }

  /** `get_memory_near` on values: the block handed out and the pool afterwards. */
  function GetMemoryNear(pools: seq<Region>, g: nat, address: Word, size: nat, s: System): (Grant, seq<Region>)
    requires IsGranularity(g)
  {
    var i := FirstFit(pools, address, size);
    if i < |pools| then
      (Block(pools[i].GetPtr()), pools[i := pools[i].(offset := pools[i].offset + size)])
    else
      match NearestGrant(address, g, s)
      case None => (OutOfReach, pools)
      case Some(b) =>
        if size <= g then (Block(b), pools + [Region(b, g, size)])
        else (NullPointer, pools + [Region(b, g, 0)])
  }

  /** No byte of the range has been handed out. */
  ghost predicate Unissued(pools: seq<Region>, a: nat, n: nat) {
    forall r | r in pools && r.offset > 0 :: Apart(a, n, r.buffer, r.offset)
  }

  /** The range lies in the part of one region that has been handed out. */
  ghost predicate IssuedFrom(pools: seq<Region>, i: nat, a: nat, n: nat) {
    i < |pools| && pools[i].buffer <= a && a + n <= pools[i].buffer + pools[i].offset
  }

  /** Regions stay where they are and only give out more. */
  ghost predicate Grown(pools: seq<Region>, pools': seq<Region>) {
    && |pools| <= |pools'|
    && forall i | 0 <= i < |pools| ::
         && pools'[i].buffer == pools[i].buffer && pools'[i].length == pools[i].length
         && pools[i].offset <= pools'[i].offset
  }

  lemma BumpIsFresh(pools: seq<Region>, g: nat, i: nat, size: nat)
    requires ValidPools(pools, g) && i < |pools| && size > 0 && pools[i].offset + size <= g && pools[i].length == g
    ensures var pools' := pools[i := pools[i].(offset := pools[i].offset + size)];
            && ValidPools(pools', g)
            && Grown(pools, pools')
            && pools[i].GetPtr() > 0
            && Unissued(pools, pools[i].GetPtr(), size)
            && IssuedFrom(pools', i, pools[i].GetPtr(), size)
  {
    var p := pools[i];
    assert p in pools;
    assert p.GetPtr() == p.buffer + p.offset;
    var pools' := pools[i := p.(offset := p.offset + size)];
    forall r | r in pools'
      ensures r == pools'[i] || r in pools
    {
    }
  }

  lemma AppendIsFresh(pools: seq<Region>, g: nat, b: Word, size: nat)
    requires ValidPools(pools, g) && FreshGrants(pools, g, {b}) && size <= g
    ensures var pools' := pools + [Region(b, g, size)];
            && ValidPools(pools', g)
            && Grown(pools, pools')
            && Unissued(pools, b, size)
            && IssuedFrom(pools', |pools|, b, size)
  {
    assert b in {b};
  }

  /** The pool has nothing for the request, the search ends at the null pointer, and the system picks a
      place out of reach. */
  predicate GoesAstray(pools: seq<Region>, g: nat, address: Word, size: nat, s: System)
    requires IsGranularity(g)
  {
    FirstFit(pools, address, size) == |pools| && Strays(address, g, s)
  }

  /** The region has room for the request, and a branch of the requester reaches its next free byte. */
  ghost predicate CanServe(r: Region, address: Word, size: nat) {
    r.offset + size <= r.length && InBranchRange(address, Wrap(r.buffer + r.offset))
  }

  ghost predicate InBranchRange(address: Word, data: Word) {
    exists d: int :: Reaches(address, 5, d, data)
  }

  ghost predicate NoneServes(pools: seq<Region>, address: Word, size: nat) {
    forall i | 0 <= i < |pools| :: !CanServe(pools[i], address, size)
  }

  /** Neither the pool nor the system has anything for the request. */
  ghost predicate NothingNear(pools: seq<Region>, g: nat, address: Word, size: nat, s: System)
    requires IsGranularity(g)
  {
    NoneServes(pools, address, size) && NearestGrant(address, g, s).None?
  }

  /** The request is served from region `i`, the first that can: the block is its next free bytes, and nothing
      but its offset is different. */
  ghost predicate TakenFrom(pools: seq<Region>, pools': seq<Region>, i: nat, address: Word, size: nat, grant: Grant) {
    && i < |pools| && CanServe(pools[i], address, size)
    && NoneServes(pools[..i], address, size)
    && grant == Block(Wrap(pools[i].buffer + pools[i].offset))
    && pools' == pools[i := Region(pools[i].buffer, pools[i].length, pools[i].offset + size)]
  }

  /** How a request is served: from the pool whenever some region can serve it, and then no region is added;
      otherwise from a region the system hands out, if it does. */
  ghost predicate ServedRight(pools: seq<Region>, g: nat, address: Word, size: nat, s: System, grant: Grant,
                              pools': seq<Region>)
    requires IsGranularity(g)
  {
    if !NoneServes(pools, address, size) then exists i: nat :: TakenFrom(pools, pools', i, address, size, grant)
    else if NearestGrant(address, g, s).None? then grant == OutOfReach && pools' == pools
    else
      var b := NearestGrant(address, g, s).value;
      && grant == (if size <= g then Block(b) else NullPointer)
      && pools' == pools + [Region(b, g, if size <= g then size else 0)]
  }

  lemma ServesWhenItCan(r: Region, address: Word, size: nat)
    ensures Serves(r, address, size) <==> CanServe(r, address, size)
  {
    FarMeansUnreachable(address, r.GetPtr(), 5);
    hide IsRelativelyFar, Reaches;
  }

  lemma NoneServesWhen(pools: seq<Region>, address: Word, size: nat)
    ensures NoneServes(pools, address, size) <==> FirstFit(pools, address, size) == |pools|
    ensures NoneServes(pools[..FirstFit(pools, address, size)], address, size)
  {
    forall i | 0 <= i < |pools|
      ensures Serves(pools[i], address, size) <==> CanServe(pools[i], address, size)
    {
      ServesWhenItCan(pools[i], address, size);
    }
    hide Serves, CanServe;
  }

  /** The pool comes first, region by region in order; the system is asked only when no region can serve. */
  lemma RequestServed(pools: seq<Region>, g: nat, address: Word, size: nat, s: System)
    requires IsGranularity(g)
    ensures var (grant, pools') := GetMemoryNear(pools, g, address, size, s);
            ServedRight(pools, g, address, size, s, grant, pools')
  {
    NoneServesWhen(pools, address, size);
    if FirstFit(pools, address, size) < |pools| {
      PoolServes(pools, g, address, size, s);
    } else {
      hide NoneServes, FirstFit, NearestGrant;
    }
    hide *;
  }

  lemma PoolServes(pools: seq<Region>, g: nat, address: Word, size: nat, s: System)
    requires IsGranularity(g) && FirstFit(pools, address, size) < |pools|
    ensures var (grant, pools') := GetMemoryNear(pools, g, address, size, s);
            ServedRight(pools, g, address, size, s, grant, pools')
  {
    var i := FirstFit(pools, address, size);
    NoneServesWhen(pools, address, size);
    ServesWhenItCan(pools[i], address, size);
    hide CanServe, Serves, NoneServes, FirstFit, NearestGrant;
    var (grant, pools') := GetMemoryNear(pools, g, address, size, s);
    assert TakenFrom(pools, pools', i, address, size, grant);
  }

  lemma RefusedWhen(pools: seq<Region>, g: nat, address: Word, size: nat, s: System, grant: Grant,
                    pools': seq<Region>)
    requires IsGranularity(g) && ServedRight(pools, g, address, size, s, grant, pools')
    ensures grant.OutOfReach? <==> NothingNear(pools, g, address, size, s)
    ensures grant.OutOfReach? ==> pools' == pools
    ensures grant.NullPointer? ==> size > g
  {
    hide NoneServes, NearestGrant;
  }

  /** The block lies in a single region and consists of bytes nobody received before. */
  ghost predicate BlockFresh(pools: seq<Region>, pools': seq<Region>, at: Word, size: nat) {
    at > 0 && Unissued(pools, at, size) && exists i: nat :: IssuedFrom(pools', i, at, size)
  }

  lemma RequestKeepsPools(pools: seq<Region>, g: nat, address: Word, size: nat, s: System)
    requires IsGranularity(g) && ValidPools(pools, g) && FreshGrants(pools, g, s.Offered()) && size > 0
    ensures var (grant, pools') := GetMemoryNear(pools, g, address, size, s);
            && ValidPools(pools', g)
            && Grown(pools, pools')
            && (grant.Block? ==>
                  && (IsRelativelyFar(address, grant.at, 5) <==> GoesAstray(pools, g, address, size, s))
                  && BlockFresh(pools, pools', grant.at, size))
  {
    var i := FirstFit(pools, address, size);
    if i < |pools| {
      assert pools[i] in pools;
      BumpIsFresh(pools, g, i, size);
    } else {
      GrantIsReachableExactlyWhen(address, g, s);
      var r := NearestGrant(address, g, s);
      if r.Some? {
        AppendIsFresh(pools, g, r.value, if size <= g then size else 0);
      }
    }
    hide IsRelativelyFar, NearestGrant, ValidPools, Unissued, Grown, IssuedFrom, Strays;
  }

  /** One request: the pool stays well formed; the pool is asked before the system; the block consists of bytes
      nobody received before, and can be reached from its requester unless the request went astray; the request
      is refused exactly when neither the pool nor the system has anything near. */
  lemma GetMemoryNearIsFresh(pools: seq<Region>, g: nat, address: Word, size: nat, s: System)
    requires IsGranularity(g) && ValidPools(pools, g) && FreshGrants(pools, g, s.Offered()) && size > 0
    ensures var (grant, pools') := GetMemoryNear(pools, g, address, size, s);
            && ValidPools(pools', g)
            && Grown(pools, pools')
            && ServedRight(pools, g, address, size, s, grant, pools')
            && (grant.OutOfReach? <==> NothingNear(pools, g, address, size, s))
            && (grant.OutOfReach? ==> pools' == pools)
            && (grant.NullPointer? ==> size > g)
            && (grant.Block? ==>
                  && (IsRelativelyFar(address, grant.at, 5) <==> GoesAstray(pools, g, address, size, s))
                  && BlockFresh(pools, pools', grant.at, size))
  {
    hide *;
    var (grant, pools') := GetMemoryNear(pools, g, address, size, s);
    RequestKeepsPools(pools, g, address, size, s);
    RequestServed(pools, g, address, size, s);
    RefusedWhen(pools, g, address, size, s, grant, pools');
  }

  datatype Request = Request(address: Word, size: nat, system: System)

  /** A run of requests against the pool. */
  function ServeAll(pools: seq<Region>, g: nat, requests: seq<Request>): (r: (seq<Grant>, seq<Region>))
    requires IsGranularity(g)
    ensures |r.0| == |requests|
    decreases |requests|
  {
    if requests == [] then ([], pools)
    else
      var q := requests[0];
      var (grant, pools') := GetMemoryNear(pools, g, q.address, q.size, q.system);
      var (grants, final) := ServeAll(pools', g, requests[1..]);
      ([grant] + grants, final)
  }

  /** Every request is of a size the allocator accepts and meets an honest system. */
  ghost predicate Serviceable(pools: seq<Region>, g: nat, requests: seq<Request>)
    requires IsGranularity(g)
    decreases |requests|
  {
    requests == [] ||
    var q := requests[0];
    && 0 < q.size <= g
    && FreshGrants(pools, g, q.system.Offered())
    && Serviceable(GetMemoryNear(pools, g, q.address, q.size, q.system).1, g, requests[1..])
  }

  ghost predicate BlocksApart(grants: seq<Grant>, requests: seq<Request>)
    requires |grants| == |requests|
  {
    forall i, j | 0 <= i < j < |grants| && grants[i].Block? && grants[j].Block? ::
      Apart(grants[i].at, requests[i].size, grants[j].at, requests[j].size)
  }

  /** A block that was free in `pools` and is inside one region of `final`. */
  ghost predicate Served(pools: seq<Region>, final: seq<Region>, q: Request, grant: Grant) {
    && !grant.NullPointer?
    && (grant.Block? ==>
          && Unissued(pools, grant.at, q.size)
          && exists k: nat :: IssuedFrom(final, k, grant.at, q.size))
  }

  lemma ServedEarlier(pools: seq<Region>, pools': seq<Region>, final: seq<Region>, q: Request, grant: Grant)
    requires Grown(pools, pools') && Served(pools', final, q, grant)
    ensures Served(pools, final, q, grant)
  {
    forall r | r in pools && r.offset > 0 && grant.Block?
      ensures Apart(grant.at, q.size, r.buffer, r.offset)
    {
      var i :| 0 <= i < |pools| && pools[i] == r;
      assert pools'[i] in pools';
    }
  }

  lemma ServedLater(pools: seq<Region>, pools': seq<Region>, final: seq<Region>, q: Request, grant: Grant)
    requires Grown(pools', final) && Served(pools, pools', q, grant)
    ensures Served(pools, final, q, grant)
  {
    if grant.Block? {
      var k: nat :| IssuedFrom(pools', k, grant.at, q.size);
      assert IssuedFrom(final, k, grant.at, q.size);
    }
  }

  lemma IssuedThenFresh(pools: seq<Region>, a: nat, n: nat, b: nat, m: nat)
    requires n > 0 && (exists k: nat :: IssuedFrom(pools, k, a, n)) && Unissued(pools, b, m)
    ensures Apart(a, n, b, m)
  {
    var k: nat :| IssuedFrom(pools, k, a, n);
    assert pools[k] in pools;
  }

  ghost predicate AllServed(pools: seq<Region>, final: seq<Region>, requests: seq<Request>, grants: seq<Grant>)
    requires |grants| == |requests|
  {
    forall i | 0 <= i < |grants| :: Served(pools, final, requests[i], grants[i])
  }

  ghost predicate ApartFromAll(q: Request, grant: Grant, requests: seq<Request>, grants: seq<Grant>)
    requires |grants| == |requests|
  {
    grant.Block? ==>
      forall i | 0 <= i < |grants| && grants[i].Block? :: Apart(grant.at, q.size, grants[i].at, requests[i].size)
  }

  lemma RunCons(pools: seq<Region>, final: seq<Region>, q: Request, grant: Grant, requests: seq<Request>,
                grants: seq<Grant>)
    requires |grants| == |requests|
    requires Served(pools, final, q, grant) && AllServed(pools, final, requests, grants)
    requires BlocksApart(grants, requests) && ApartFromAll(q, grant, requests, grants)
    ensures AllServed(pools, final, [q] + requests, [grant] + grants)
    ensures BlocksApart([grant] + grants, [q] + requests)
  {
  }

  /** The pool that meets request `i` of a run. */
  function PoolsAt(pools: seq<Region>, g: nat, requests: seq<Request>, i: nat): seq<Region>
    requires IsGranularity(g) && i <= |requests|
    decreases i
  {
    if i == 0 then pools
    else
      var q := requests[0];
      PoolsAt(GetMemoryNear(pools, g, q.address, q.size, q.system).1, g, requests[1..], i - 1)
  }

  /** In any run of requests, a block is within branch range of its requester exactly when its request did not
      go astray; none does unless the null pointer is within reach of the requester. */
  lemma {:induction false} ServedWithinReachExactlyWhen(pools: seq<Region>, g: nat, requests: seq<Request>, i: nat)
    requires IsGranularity(g) && ValidPools(pools, g) && Serviceable(pools, g, requests)
    requires i < |requests| && ServeAll(pools, g, requests).0[i].Block?
    ensures var q, at := requests[i], ServeAll(pools, g, requests).0[i].at;
            && (IsRelativelyFar(q.address, at, 5) <==>
                  GoesAstray(PoolsAt(pools, g, requests, i), g, q.address, q.size, q.system))
            && (IsRelativelyFar(q.address, 0, 5) ==> !IsRelativelyFar(q.address, at, 5))
    decreases i
  {
    var q := requests[0];
    GetMemoryNearIsFresh(pools, g, q.address, q.size, q.system);
    if i == 0 {
      SearchStaysInReachExactlyWhen(q.address, g);
      hide IsRelativelyFar, Strays;
    } else {
      hide IsRelativelyFar, GoesAstray, ValidPools, FreshGrants, GetMemoryNear;
      ServedWithinReachExactlyWhen(GetMemoryNear(pools, g, q.address, q.size, q.system).1, g, requests[1..], i - 1);
    }
  }

  /** Over any run of requests the blocks are pairwise disjoint, each inside one region; a request fails only
      when the neighbourhood search found nothing. */
  lemma {:induction false} ServedBlocksAreDisjoint(pools: seq<Region>, g: nat, requests: seq<Request>)
    requires IsGranularity(g) && ValidPools(pools, g) && Serviceable(pools, g, requests)
    ensures var (grants, final) := ServeAll(pools, g, requests);
            && ValidPools(final, g)
            && Grown(pools, final)
            && BlocksApart(grants, requests)
            && AllServed(pools, final, requests, grants)
    decreases |requests|
  {
    if requests != [] {
      var q, tail := requests[0], requests[1..];
      var (grant, pools') := GetMemoryNear(pools, g, q.address, q.size, q.system);
      var (rest, final) := ServeAll(pools', g, tail);
      GetMemoryNearIsFresh(pools, g, q.address, q.size, q.system);
      assert Served(pools, pools', q, grant);
      hide GetMemoryNear, ValidPools, FreshGrants, Served, IssuedFrom, Unissued, BlocksApart, IsRelativelyFar,
           GoesAstray;
      ServedBlocksAreDisjoint(pools', g, tail);
      ServedLater(pools, pools', final, q, grant);
      EarlierApart(pools, pools', final, q, grant, tail, rest);
      GrownTwice(pools, pools', final);
      hide Grown, AllServed, ApartFromAll;
      RunCons(pools, final, q, grant, tail, rest);
      assert requests == [q] + tail;
    }
  }

  lemma GrownTwice(pools: seq<Region>, mid: seq<Region>, final: seq<Region>)
    requires Grown(pools, mid) && Grown(mid, final)
    ensures Grown(pools, final)
  {
  }

  /** Blocks served later share nothing with one served before. */
  lemma EarlierApart(pools: seq<Region>, pools': seq<Region>, final: seq<Region>, q: Request, grant: Grant,
                     tail: seq<Request>, rest: seq<Grant>)
    requires |rest| == |tail| && Grown(pools, pools') && Served(pools, pools', q, grant) && q.size > 0
    requires AllServed(pools', final, tail, rest)
    ensures AllServed(pools, final, tail, rest) && ApartFromAll(q, grant, tail, rest)
  {
    forall i | 0 <= i < |rest|
      ensures Served(pools, final, tail[i], rest[i])
      ensures grant.Block? && rest[i].Block? ==> Apart(grant.at, q.size, rest[i].at, tail[i].size)
    {
      ServedEarlier(pools, pools', final, tail[i], rest[i]);
      if grant.Block? && rest[i].Block? {
        IssuedThenFresh(pools', grant.at, q.size, rest[i].at, tail[i].size);
      }
    }
    hide Served, Apart;
  }
}
