/** The signature scanner of src/common/utils/signature.cpp: loading a pattern, the plain scan, the SSE4.2
    scan, and the serial and parallel searches, over a block of readable memory. */
module Signature {
  import opened Options
  import opened Words
  import opened Pattern
  import opened Simd

  function Max(a: nat, b: nat): nat {
    if a > b then a else b
  }

  /** The mask and pattern strings that stand for a list of tokens. */
  function MaskOf(tokens: seq<Token>): (s: string)
    ensures |s| == |tokens|
  {
    seq(|tokens|, i requires 0 <= i < |tokens| => if tokens[i].Wildcard? then '?' else 'x')
  }

  function BytesOf(tokens: seq<Token>): (s: seq<Byte>)
    ensures |s| == |tokens|
  {
    seq(|tokens|, i requires 0 <= i < |tokens| => if tokens[i].Wildcard? then 0 else tokens[i].b)
  }

  // ---- Sorting, as std::sort promises it ----

  ghost predicate Sorted(s: seq<nat>) {
    forall i, j | 0 <= i < j < |s| :: s[i] <= s[j]
  }

  function Insert(x: nat, s: seq<nat>): seq<nat> {
    if s == [] || x <= s[0] then [x] + s else [s[0]] + Insert(x, s[1..])
  }

  function Sort(s: seq<nat>): seq<nat> {
    if s == [] then [] else Insert(s[0], Sort(s[1..]))
  }

  lemma {:induction false} InsertSorts(x: nat, s: seq<nat>)
    requires Sorted(s)
    ensures Sorted(Insert(x, s))
    ensures Insert(x, s) != [] && (Insert(x, s)[0] == x || (s != [] && Insert(x, s)[0] == s[0]))
    decreases |s|
  {
    if s != [] && x > s[0] {
      InsertSorts(x, s[1..]);
      SortedCons(s[0], Insert(x, s[1..]));
    }
  }

  lemma SortedCons(x: nat, s: seq<nat>)
    requires Sorted(s) && (s != [] ==> x <= s[0])
    ensures Sorted([x] + s)
  {
  }

  lemma {:induction false} InsertBag(x: nat, s: seq<nat>)
    ensures multiset(Insert(x, s)) == multiset{x} + multiset(s)
    decreases |s|
  {
    if s != [] && x > s[0] {
      InsertBag(x, s[1..]);
      TailBag(s);
    }
  }

  lemma TailBag(s: seq<nat>)
    requires s != []
    ensures multiset(s) == multiset{s[0]} + multiset(s[1..])
  {
    assert s == [s[0]] + s[1..];
  }

  /** The result is sorted and holds what the input held. */
  lemma {:induction false} SortSorts(s: seq<nat>)
    ensures Sorted(Sort(s)) && multiset(Sort(s)) == multiset(s)
    decreases |s|
  {
    if s != [] {
      assert s == [s[0]] + s[1..];
      SortSorts(s[1..]);
      InsertSorts(s[0], Sort(s[1..]));
      InsertBag(s[0], Sort(s[1..]));
    }
  }

  lemma SortedHead(a: seq<nat>, x: nat)
    requires Sorted(a) && x in multiset(a)
    ensures a != [] && a[0] <= x
  {
    assert x in a;
  }

  lemma SortedHeadsAgree(a: seq<nat>, b: seq<nat>)
    requires Sorted(a) && Sorted(b) && multiset(a) == multiset(b) && a != []
    ensures b != [] && a[0] == b[0]
  {
    assert a[0] in multiset(a);
    SortedHead(b, a[0]);
    assert b[0] in multiset(b);
    SortedHead(a, b[0]);
  }

  lemma NothingInBag(b: seq<nat>)
    requires multiset(b) == multiset([])
    ensures b == []
  {
    assert |multiset(b)| == |b|;
  }

  /** A sorted list is determined by what it contains. */
  lemma {:induction false} SortedUnique(a: seq<nat>, b: seq<nat>)
    requires Sorted(a) && Sorted(b) && multiset(a) == multiset(b)
    ensures a == b
    decreases |a|
  {
    if a == [] {
      NothingInBag(b);
    } else {
      SortedHeadsAgree(a, b);
      SameTails(a, b);
      SortedUnique(a[1..], b[1..]);
      assert a == [a[0]] + a[1..];
    }
  }

  lemma SameTails(a: seq<nat>, b: seq<nat>)
    requires a != [] && b != [] && a[0] == b[0] && multiset(a) == multiset(b)
    ensures multiset(a[1..]) == multiset(b[1..])
  {
    TailBag(a);
    TailBag(b);
    BagCancel(multiset(a[1..]), multiset(b[1..]), a[0]);
  }

  lemma BagCancel(s: multiset<nat>, t: multiset<nat>, x: nat)
    requires multiset{x} + s == multiset{x} + t
    ensures s == t
  {
    assert s == multiset{x} + s - multiset{x};
    assert t == multiset{x} + t - multiset{x};
  }

  // ---- Gathering local results in any order ----

  /** Local results one after another, in the order in which the threads got the lock. */
  function Gather(parts: seq<seq<nat>>, order: seq<nat>): seq<nat>
    requires forall j | 0 <= j < |order| :: order[j] < |parts|
  {
    if order == [] then []
    else parts[order[0]] + Gather(parts, order[1..])
  }

  function Flatten(parts: seq<seq<nat>>): seq<nat> {
    if parts == [] then [] else Flatten(parts[..|parts| - 1]) + parts[|parts| - 1]
  }

  /** Every thread is in the order once. */
  ghost predicate IsOrder(order: seq<nat>, n: nat) {
    && |order| == n
    && (forall j | 0 <= j < n :: order[j] < n)
    && (forall i, j | 0 <= i < j < n :: order[i] != order[j])
  }

  function Without(order: seq<nat>, k: nat): (r: seq<nat>)
    requires k < |order|
    ensures |r| == |order| - 1
    ensures forall j | 0 <= j < |r| :: r[j] == if j < k then order[j] else order[j + 1]
  {
    order[..k] + order[k + 1..]
  }

  lemma {:induction false} GatherWithout(parts: seq<seq<nat>>, order: seq<nat>, k: nat)
    requires k < |order| && forall j | 0 <= j < |order| :: order[j] < |parts|
    ensures multiset(Gather(parts, order)) == multiset(Gather(parts, Without(order, k))) + multiset(parts[order[k]])
    decreases |order|
  {
    if k == 0 {
      assert Without(order, 0) == order[1..];
    } else {
      WithoutLater(order, k);
      hide Without;
      GatherWithout(parts, order[1..], k - 1);
    }
  }

  lemma WithoutLater(order: seq<nat>, k: nat)
    requires 0 < k < |order|
    ensures Without(order, k) != [] && Without(order, k)[0] == order[0]
    ensures Without(order, k)[1..] == Without(order[1..], k - 1)
  {
  }

  /** Dropping an unused last part changes nothing. */
  lemma {:induction false} GatherFewer(parts: seq<seq<nat>>, order: seq<nat>)
    requires parts != [] && forall j | 0 <= j < |order| :: order[j] < |parts| - 1
    ensures Gather(parts, order) == Gather(parts[..|parts| - 1], order)
    decreases |order|
  {
    if order != [] {
      GatherFewer(parts, order[1..]);
    }
  }

  /** Distinct numbers below `n`, `n` of them, include `n - 1`: otherwise two would collide. */
  lemma {:induction false} FindLast(order: seq<nat>, n: nat) returns (k: nat)
    requires n > 0 && IsOrder(order, n)
    ensures k < n && order[k] == n - 1
  {
    if forall j | 0 <= j < n :: order[j] != n - 1 {
      TooMany(order, n - 1);
    }
    k :| k < n && order[k] == n - 1;
  }

  /** There are no more than `n` distinct numbers below `n`. */
  lemma {:induction false} TooMany(order: seq<nat>, n: nat)
    requires forall j | 0 <= j < |order| :: order[j] < n
    requires forall i, j | 0 <= i < j < |order| :: order[i] != order[j]
    ensures |order| <= n
    decreases n
  {
    if k: nat :| k < |order| && order[k] == n - 1 {
      TooMany(Without(order, k), n - 1);
    } else if order != [] {
      assert order[0] < n && order[0] != n - 1;
      TooMany(order, n - 1);
    }
  }

  lemma {:induction false} GatherIsFlatten(parts: seq<seq<nat>>, order: seq<nat>)
    requires IsOrder(order, |parts|)
    ensures multiset(Gather(parts, order)) == multiset(Flatten(parts))
    decreases |parts|
  {
    var n := |parts|;
    if n > 0 {
      var k := FindLast(order, n);
      var front := parts[..n - 1];
      OrderWithout(order, n, k);
      assert Flatten(parts) == Flatten(front) + parts[n - 1];
      hide Gather, IsOrder, Flatten, Without;
      var rest := Without(order, k);
      GatherWithout(parts, order, k);
      GatherFewer(parts, rest);
      GatherIsFlatten(front, rest);
      assert multiset(Flatten(front) + parts[n - 1]) == multiset(Flatten(front)) + multiset(parts[n - 1]);
    }
  }

  lemma OrderWithout(order: seq<nat>, n: nat, k: nat)
    requires n > 0 && IsOrder(order, n) && k < n && order[k] == n - 1
    ensures IsOrder(Without(order, k), n - 1)
    ensures forall j | 0 <= j < n :: order[j] < n
  {
    var rest := Without(order, k);
    hide Without;
    assert forall j | 0 <= j < |rest| :: rest[j] != n - 1;
  }

  // ---- Splitting a range into chunks ----

  /** Chunk `i` of a range cut into `cores` pieces of `grid`, the last one taking the rest. */
  function ChunkLength(range: nat, cores: nat, i: nat): int
    requires i < cores
  {
    var grid := range / cores;
    if i + 1 == cores then range - grid * i else grid
  }

  lemma GridFits(range: nat, cores: nat, i: nat)
    requires i <= cores && cores > 0
    ensures 0 <= (range / cores) * i <= range
    ensures i < cores ==>
              0 <= ChunkLength(range, cores, i) && (range / cores) * i + ChunkLength(range, cores, i) <= range
    ensures i < cores ==> (range / cores) * i + (range / cores) == (range / cores) * (i + 1)
  {
    var grid := range / cores;
    assert grid * cores <= range;
    GridMonotone(grid, i, cores);
    if i < cores {
      GridMonotone(grid, i + 1, cores);
      assert grid * (i + 1) == grid * i + grid;
    }
  }

  lemma GridMonotone(g: nat, i: nat, j: nat)
    requires i <= j
    ensures 0 <= g * i <= g * j
  {
    assert g * (j - i) >= 0;
    assert g * j == g * i + g * (j - i);
  }

  /** The result of the thread on chunk `i`. */
  function Chunk(mem: seq<Byte>, base: nat, tokens: seq<Token>, range: nat, cores: nat, i: nat): seq<nat>
    requires i < cores
  {
    GridFits(range, cores, i);
    Matches(mem, base, tokens, (range / cores) * i, ChunkLength(range, cores, i))
  }

  function Chunks(mem: seq<Byte>, base: nat, tokens: seq<Token>, range: nat, cores: nat, n: nat): (s: seq<seq<nat>>)
    requires n <= cores
    ensures |s| == n
  {
    if n == 0 then []
    else Chunks(mem, base, tokens, range, cores, n - 1) + [Chunk(mem, base, tokens, range, cores, n - 1)]
  }

  /** The chunks, in order, are the scan of the whole range. */
  lemma {:induction false} ChunksAreRange(mem: seq<Byte>, base: nat, tokens: seq<Token>, range: nat, cores: nat, n: nat)
    requires 0 < cores && n <= cores
    ensures (range / cores) * n >= 0
    ensures Flatten(Chunks(mem, base, tokens, range, cores, n)) ==
            Matches(mem, base, tokens, 0, if n == cores then range else (range / cores) * n)
  {
    GridFits(range, cores, n);
    if n > 0 {
      ChunksAreRange(mem, base, tokens, range, cores, n - 1);
      GridFits(range, cores, n - 1);
      NextChunk(mem, base, tokens, range, cores, n - 1);
      var all := Chunks(mem, base, tokens, range, cores, n);
      assert all[..n - 1] == Chunks(mem, base, tokens, range, cores, n - 1);
      hide Matches, Chunk;
    }
  }

  lemma NextChunk(mem: seq<Byte>, base: nat, tokens: seq<Token>, range: nat, cores: nat, i: nat)
    requires i < cores
    ensures 0 <= (range / cores) * i && 0 <= (range / cores) * (i + 1)
    ensures Matches(mem, base, tokens, 0, (range / cores) * i) + Chunk(mem, base, tokens, range, cores, i) ==
            Matches(mem, base, tokens, 0, if i + 1 == cores then range else (range / cores) * (i + 1))
  {
    GridFits(range, cores, i);
    MatchesConcat(mem, base, tokens, 0, (range / cores) * i, ChunkLength(range, cores, i));
    hide Matches;
  }

  lemma MatchesSorted(mem: seq<Byte>, base: nat, tokens: seq<Token>, from: nat, n: nat)
    ensures Sorted(Matches(mem, base, tokens, from, n))
  {
    MatchesAreAll(mem, base, tokens, from, n);
  }

  /** Sorting what the threads gathered gives the serial result, for every number of threads and every
      order in which they finish. */
  lemma ParallelIsSerial(mem: seq<Byte>, base: nat, tokens: seq<Token>, range: nat, cores: nat, order: seq<nat>)
    requires cores > 0 && IsOrder(order, cores)
    ensures Sort(Gather(Chunks(mem, base, tokens, range, cores, cores), order)) == Matches(mem, base, tokens, 0, range)
  {
    var parts := Chunks(mem, base, tokens, range, cores, cores);
    GatherIsFlatten(parts, order);
    ChunksAreRange(mem, base, tokens, range, cores, cores);
    MatchesSorted(mem, base, tokens, 0, range);
    SortSorts(Gather(parts, order));
    SortedUnique(Sort(Gather(parts, order)), Matches(mem, base, tokens, 0, range));
  }

  // ---- Blocks that are too short ----

  predicate WindowInside(length: nat, sub: nat, i: nat) {
    i + sub <= length
  }

  /** The length of the scan is a 64-bit difference. All its windows lie inside the block exactly when the
      block is not shorter than what the scan keeps clear of; otherwise the difference wraps, and the scan
      goes on to offsets wholly outside. */
  lemma RangeStaysInsideExactlyWhen(length: Word, sub: Word)
    ensures (forall i: nat | i < Wrap(length - sub) :: WindowInside(length, sub, i)) <==> sub <= length
    ensures sub > length ==> length < Wrap(length - sub)
  {
    if sub > length {
      assert Wrap(length - sub) == TWO_64 + length - sub;
      assert !WindowInside(length, sub, 0);
    } else {
      assert Wrap(length - sub) == length - sub;
    }
  }

  /** A witness: fifteen bytes, vectorised, are scanned to the end of the address space. */
  lemma FifteenBytesWrap()
    ensures Wrap(15 - 16) == TWO_64 - 1 && !WindowInside(15, 16, 0)
  {
  }

  // ---- The scanner ----

  /** `load_pattern` has filled `mask` and `pattern`; `mem` is the block of `length_` bytes at `start`. */
  class Scanner {
    var mask: string
    var pattern: seq<Byte>
    const start: nat
    const mem: seq<Byte>
    const cpuHasSse: bool

    constructor (start: nat, mem: seq<Byte>, cpuHasSse: bool)
      ensures this.start == start && this.mem == mem && this.cpuHasSse == cpuHasSse
      ensures mask == "" && pattern == []
    {
      this.start, this.mem, this.cpuHasSse := start, mem, cpuHasSse;
      mask, pattern := "", [];
    }

    /** `has_sse_support`. */
    predicate HasSse()
      reads this
    {
      |mask| <= 16 && cpuHasSse
    }

    /** Mask and pattern stand for the tokens, which do not end in a wildcard; the pattern is padded to a register
        for the vectorised scan. */
    ghost predicate Loaded(tokens: seq<Token>)
      reads this
    {
      && mask == MaskOf(tokens)
      && (tokens != [] ==> tokens[|tokens| - 1].Exact?)
      && |mask| <= |pattern|
      && pattern[..|mask|] == BytesOf(tokens)
      && (HasSse() ==> |pattern| >= 16)
    }

    /** How many bytes at the end the scan keeps clear of. */
    function Sub(): nat
      reads this
    {
      if HasSse() then 16 else |mask|
    }

    /** `load_pattern`; false is the exception, which comes after the fields were written. */
    method LoadPattern(text: string) returns (ok: bool)
      modifies this`mask, this`pattern
      ensures ok == Parse(text).Some?
      ensures ok ==> Loaded(Parse(text).value) && |pattern| == if HasSse() then Max(16, |mask|) else |mask|
    {
      mask, pattern := "", [];
      var nibble: Option<Byte> := None;
      ghost var tokens: seq<Token> := [];
      var i := 0;
      while i < |text|
        invariant 0 <= i <= |text|
        invariant nibble.Some? ==> nibble.value < 16
        invariant mask == MaskOf(tokens) && pattern == BytesOf(tokens)
        invariant ParseFrom(text, [], None) == ParseFrom(text[i..], tokens, nibble)
      {
        var c := text[i];
        assert text[i..][0] == c && text[i..][1..] == text[i + 1..];
        i := i + 1;
        if c == ' ' {
          continue;
        }
        if c == '?' {
          mask := mask + ['?'];
          pattern := pattern + [0];
          tokens := tokens + [Wildcard];
        } else {
          var v := HexValue(c);
          if v.None? {
            return false;
          }
          if nibble.None? {
            nibble := v;
          } else {
            mask := mask + ['x'];
            pattern := pattern + [16 * nibble.value + v.value];
            tokens := tokens + [Exact(16 * nibble.value + v.value)];
            nibble := None;
          }
        }
      }
      assert text[i..] == [];
      ghost var all := tokens;
      assert ParseFrom(text, [], None) == Some((all, nibble));
      while mask != "" && mask[|mask| - 1] == '?'
        invariant mask == MaskOf(tokens) && pattern == BytesOf(tokens)
        invariant Trim(all) == Trim(tokens)
        decreases |mask|
      {
        assert tokens[|tokens| - 1].Wildcard?;
        mask := mask[..|mask| - 1];
        pattern := pattern[..|pattern| - 1];
        tokens := tokens[..|tokens| - 1];
      }
      assert tokens != [] ==> tokens[|tokens| - 1].Exact? by {
        if tokens != [] {
          assert mask[|mask| - 1] == MaskOf(tokens)[|tokens| - 1];
        }
      }
      assert tokens == Trim(all);
      assert nibble.None? ==> Parse(text) == Some(tokens);
      if HasSse() {
        while |pattern| < 16
          invariant mask == MaskOf(tokens)
          invariant |mask| <= |pattern| && pattern[..|mask|] == BytesOf(tokens)
          invariant |pattern| <= Max(16, |mask|)
        {
          pattern := pattern + [0];
        }
      }
      ok := nibble.None?;
    }

    /** Block and pattern lie in a 64-bit address space. */
    predicate InAddressSpace()
      reads this
    {
      |mem| < TWO_64 && |mask| < TWO_64
    }

    /** `process_range_linear`: the window at `i` is compared byte by byte, stopping at the first difference.
        None is a read outside the block. */
    method ProcessRangeLinear(from: nat, length: nat, ghost tokens: seq<Token>) returns (result: Option<seq<nat>>)
      requires Loaded(tokens)
      ensures from + length + |mask| <= |mem| ==> result == Some(Matches(mem, start, tokens, from, length))
      ensures mask != "" && length > 0 && from + length > |mem| ==> result == None
    {
      hide Loaded, MatchesAt;
      var found: seq<nat> := [];
      var i := 0;
      while i < length
        invariant 0 <= i <= length
        invariant mask != "" && i > 0 ==> from + i <= |mem|
        invariant from + length + |mask| <= |mem| ==> found == Matches(mem, start, tokens, from, i)
      {
        var fits := CompareWindow(from + i, tokens);
        if fits.None? {
          return None;
        }
        if fits.value {
          found := found + [start + from + i];
        }
        i := i + 1;
      }
      result := Some(found);
    }

    /** The inner loop of `process_range_linear`. */
    method CompareWindow(address: nat, ghost tokens: seq<Token>) returns (fits: Option<bool>)
      requires Loaded(tokens)
      ensures address + |mask| <= |mem| ==> fits == Some(MatchesAt(mem, address, tokens))
      ensures fits.Some? && mask != "" ==> address < |mem|
    {
      var j := 0;
      while j < |mask|
        invariant 0 <= j <= |mask|
        invariant forall k | 0 <= k < j && tokens[k].Exact? :: address + k < |mem| && mem[address + k] == tokens[k].b
      {
        TokenAt(tokens, j);
        if mask[j] != '?' {
          if address + j >= |mem| {
            return None;
          }
          if pattern[j] != mem[address + j] {
            return Some(false);
          }
        }
        j := j + 1;
      }
      fits := Some(true);
    }

    /** What mask and pattern say at one position. */
    lemma TokenAt(tokens: seq<Token>, j: nat)
      requires Loaded(tokens) && j < |mask|
      ensures mask[j] == '?' <==> tokens[j].Wildcard?
      ensures tokens[j].Exact? ==> pattern[j] == tokens[j].b
    {
      assert pattern[j] == pattern[..|mask|][j];
    }

    /** The mask register of the vectorised scan: one bit for every position that is not a wildcard. */
    method DesiredMask(ghost tokens: seq<Token>) returns (wanted: Xmm)
      requires Loaded(tokens) && |mask| <= 16
      ensures forall i | 2 <= i < 16 :: wanted[i] == 0
      ensures forall k: nat | k < 16 :: Bit(wanted, k) <==> k < |tokens| && tokens[k].Exact?
    {
      wanted := [0, 0, 0, 0, 0, 0, 0, 0, 0, 0, 0, 0, 0, 0, 0, 0];
      forall k: nat | k < 8
        ensures !HasBit(0, k)
      {
        NoBits(k);
      }
      assert forall k: nat | k < 16 :: !Bit(wanted, k);
      hide HasBit, BitOf, Bit, MaskOf, BytesOf;
      var i := 0;
      while i < |mask|
        invariant 0 <= i <= |mask|
        invariant forall j | 2 <= j < 16 :: wanted[j] == 0
        invariant forall k: nat | k < 16 :: Bit(wanted, k) <==> k < i && tokens[k].Exact?
      {
        ghost var before := wanted;
        var bit := if mask[i] == '?' then 0 else BitOf(i % 8);
        wanted := wanted[i / 8 := wanted[i / 8] | bit];
        TokenAt(tokens, i);
        forall k: nat | k < 16
          ensures Bit(wanted, k) <==> k < i + 1 && tokens[k].Exact?
        {
          MaskBit(before, i, k, tokens[i].Exact?);
        }
        i := i + 1;
      }
    }

    /** `process_range_vectorized`: sixteen bytes compared at a time under the mask register. None is a read
        outside the block. */
    method ProcessRangeVectorized(from: nat, length: nat, ghost tokens: seq<Token>) returns (result: Option<seq<nat>>)
      requires Loaded(tokens) && HasSse()
      ensures from + length + 16 <= |mem| ==> result == Some(Matches(mem, start, tokens, from, length))
      ensures length > 0 && from + length > |mem| ==> result == None
    {
      hide CompareEach, Xor, And, TestAllZeros, Bit, MatchesAt, MaskOf, BytesOf;
      var matching: seq<nat> := [];
      var wanted := DesiredMask(tokens);
      var comparand := pattern[..16];
      var i := 0;
      while i < length
        invariant 0 <= i <= length
        invariant i > 0 ==> from + i <= |mem|
        invariant matching == Matches(mem, start, tokens, from, i)
      {
        var address := from + i;
        if address + 16 > |mem| {
          return None;
        }
        var value := mem[address..address + 16];
        var found := CompareEach(value, 16, comparand, |mask|);
        var equivalence := Xor(wanted, And(wanted, found));
        WindowTest(address, tokens, wanted);
        if TestAllZeros(equivalence) {
          matching := matching + [start + address];
        }
        i := i + 1;
      }
      result := Some(matching);
    }

    /** The register test accepts a window exactly when it matches. */
    lemma WindowTest(address: nat, tokens: seq<Token>, wanted: Xmm)
      requires Loaded(tokens) && HasSse() && address + 16 <= |mem|
      requires forall i | 2 <= i < 16 :: wanted[i] == 0
      requires forall k: nat | k < 16 :: Bit(wanted, k) <==> k < |tokens| && tokens[k].Exact?
      ensures var found := CompareEach(mem[address..address + 16], 16, pattern[..16], |mask|);
              TestAllZeros(Xor(wanted, And(wanted, found))) <==> MatchesAt(mem, address, tokens)
    {
      var value, comparand := mem[address..address + 16], pattern[..16];
      var found := CompareEach(value, 16, comparand, |mask|);
      hide CompareEach, Xor, And, TestAllZeros, Bit;
      CoverTest(wanted, found);
      forall k: nat | k < 16
        ensures (Bit(wanted, k) ==> Bit(found, k)) <==>
                (k < |tokens| && tokens[k].Exact? ==> mem[address + k] == tokens[k].b)
      {
        CompareEachBit(value, 16, comparand, |mask|, k);
        if k < |tokens| {
          TokenAt(tokens, k);
          assert value[k] == mem[address + k] && comparand[k] == pattern[k];
        }
      }
    }

    /** `process_range`. */
    method ProcessRange(from: nat, length: nat, ghost tokens: seq<Token>) returns (result: Option<seq<nat>>)
      requires Loaded(tokens)
      ensures from + length + Sub() <= |mem| ==> result == Some(Matches(mem, start, tokens, from, length))
      ensures Sub() > 0 && length > 0 && from + length > |mem| ==> result == None
    {
      if HasSse() {
        result := ProcessRangeVectorized(from, length, tokens);
      } else {
        result := ProcessRangeLinear(from, length, tokens);
      }
    }

    /** What a search finds: all matches of the block, or a read outside it when it is too short. */
    ghost function Found(tokens: seq<Token>): Option<seq<nat>>
      reads this
    {
      if Sub() <= |mem| then Some(Matches(mem, start, tokens, 0, |mem| - Sub())) else None
    }

    /** `process_serial`; the length is a 64-bit difference. */
    method ProcessSerial(ghost tokens: seq<Token>) returns (result: Option<seq<nat>>)
      requires Loaded(tokens) && InAddressSpace()
      ensures result == Found(tokens)
    {
      var range := Wrap(|mem| - Sub());
      WrappedRange(|mem|, Sub());
      result := ProcessRange(0, range, tokens);
    }

    /** `process_parallel`: thread `i` scans chunk `i`; `order` is the order in which the threads append
        their results under the lock. */
    method ProcessParallel(hardware: nat, order: seq<nat>, ghost tokens: seq<Token>) returns (result: Option<seq<nat>>)
      requires Loaded(tokens) && InAddressSpace() && IsOrder(order, Max(1, hardware / 2))
      ensures result == Found(tokens)
    {
      var cores := Max(1, hardware / 2);
      hide Matches, Loaded, Gather, Sort, Max, IsOrder;
      var range: int := Wrap(|mem| - Sub());
      WrappedRange(|mem|, Sub());
      var locals := ScanChunks(range, cores, tokens);
      if locals.None? {
        return None;
      }
      var gathered := Append(locals.value, order);
      ParallelIsSerial(mem, start, tokens, range, cores, order);
      result := Some(Sort(gathered));
    }

    /** The threads of `process_parallel`, each with its result. */
    method ScanChunks(range: nat, cores: nat, ghost tokens: seq<Token>) returns (locals: Option<seq<seq<nat>>>)
      requires Loaded(tokens) && cores > 0
      ensures range + Sub() <= |mem| ==> locals == Some(Chunks(mem, start, tokens, range, cores, cores))
      ensures Sub() > 0 && range > |mem| ==> locals == None
    {
      hide Matches, Loaded, Sub;
      var grid := range / cores;
      var done: seq<seq<nat>> := [];
      var i := 0;
      while i < cores
        invariant 0 <= i <= cores
        invariant Sub() > 0 && range > |mem| ==> i < cores
        invariant range + Sub() <= |mem| ==> done == Chunks(mem, start, tokens, range, cores, i)
      {
        GridFits(range, cores, i);
        var from := grid * i;
        var length := if i + 1 == cores then range - from else grid;
        LastChunkReaches(range, cores);
        var local := ProcessRange(from, length, tokens);
        if local.None? {
          return None;
        }
        done := done + [local.value];
        i := i + 1;
      }
      locals := Some(done);
    }

    /** The threads append their results, one after another. */
    method Append(locals: seq<seq<nat>>, order: seq<nat>) returns (result: seq<nat>)
      requires IsOrder(order, |locals|)
      ensures result == Gather(locals, order)
    {
      result := [];
      var k := 0;
      while k < |order|
        invariant 0 <= k <= |order|
        invariant Gather(locals, order) == result + Gather(locals, order[k..])
      {
        assert order[k..][0] == order[k] && order[k..][1..] == order[k + 1..];
        result := result + locals[order[k]];
        k := k + 1;
      }
      assert order[k..] == [] && result + [] == result;
    }

    /** How many bytes at the end the search should keep clear of: a whole register for patterns of up to sixteen
        tokens on a processor with SSE4.2, otherwise as many as the pattern has tokens. */
    ghost function KeptClear(tokens: seq<Token>): nat {
      if |tokens| <= 16 && cpuHasSse then 16 else |tokens|
    }

    /** The bytes at an offset are those the pattern asks for. */
    ghost predicate Fits(tokens: seq<Token>, offset: nat) {
      offset + |tokens| <= |mem| && forall j | 0 <= j < |tokens| && tokens[j].Exact? :: mem[offset + j] == tokens[j].b
    }

    /** What is found, by what the memory holds. */
    lemma SearchParts(tokens: seq<Token>)
      requires Loaded(tokens)
      ensures Sub() == KeptClear(tokens) && (Found(tokens).Some? <==> KeptClear(tokens) <= |mem|)
      ensures Found(tokens).Some? ==> Ascending(Found(tokens).value)
      ensures Found(tokens).Some? ==>
                forall a: nat ::
                  a in Found(tokens).value <==>
                    start <= a < start + |mem| - KeptClear(tokens) && Fits(tokens, a - start)
    {
      assert |mask| == |tokens|;
      hide Loaded;
      if Sub() <= |mem| {
        MatchesAreAll(mem, start, tokens, 0, |mem| - Sub());
      }
      hide Matches, Ascending;
    }

    /** `process`: whichever way it goes, the matching addresses in ascending order, exactly when the block is
        not shorter than the bytes the scan keeps clear of; for a shorter one a read outside it. */
    method Process(hardware: nat, order: seq<nat>, ghost tokens: seq<Token>) returns (result: Option<seq<nat>>)
      requires Loaded(tokens) && InAddressSpace() && IsOrder(order, Max(1, hardware / 2))
      ensures result == Found(tokens) && (result.Some? <==> KeptClear(tokens) <= |mem|)
      ensures result.Some? ==> Ascending(result.value)
      ensures result.Some? ==>
                forall a: nat ::
                  a in result.value <==> start <= a < start + |mem| - KeptClear(tokens) && Fits(tokens, a - start)
    {
      SearchParts(tokens);
      hide Matches, MatchesAt, Loaded, Ascending, IsOrder, Fits, KeptClear;
      var range := Wrap(|mem| - |mask|);
      var cores := Max(1, hardware);
      if range <= cores * 10 {
        result := ProcessSerial(tokens);
      } else {
        result := ProcessParallel(hardware, order, tokens);
      }
    }
  }

  /** The range of a block: its length without the bytes kept clear of, or more than its length. */
  lemma WrappedRange(length: Word, sub: int)
    requires 0 <= sub < TWO_64
    ensures sub <= length ==> Wrap(length - sub) == length - sub
    ensures sub > length ==> Wrap(length - sub) > length
  {
    if sub > length {
      assert Wrap(length - sub) == TWO_64 + length - sub;
    }
  }

  lemma LastChunkReaches(range: nat, cores: nat)
    requires cores > 0
    ensures var from := (range / cores) * (cores - 1); from <= range && (range > 0 ==> from < range)
  {
    GridFits(range, cores, cores - 1);
    var grid := range / cores;
    assert grid * cores == grid * (cores - 1) + grid;
    if grid == 0 {
      assert grid * (cores - 1) == 0;
    }
  }

  lemma MaskBit(before: Xmm, i: nat, k: nat, exact: bool)
    requires i < 16 && k < 16
    ensures var after := before[i / 8 := before[i / 8] | (if exact then BitOf(i % 8) else 0)];
            Bit(after, k) <==> Bit(before, k) || (k == i && exact)
  {
    hide HasBit, BitOf;
    var j := if k < 8 then k else k - 8;
    ByteBit(before[i / 8], i % 8, j, exact);
    if i < 8 {
      assert i / 8 == 0 && i % 8 == i;
    } else {
      assert i / 8 == 1 && i % 8 == i - 8;
    }
  }

  lemma ByteBit(b: bv8, i: nat, j: nat, exact: bool)
    requires i < 8 && j < 8
    ensures HasBit(b | (if exact then BitOf(i) else 0), j) <==> HasBit(b, j) || (exact && i == j)
  {
    hide HasBit, BitOf;
    if exact {
      SetBit(b, i, j);
    } else {
      OrNothing(b);
    }
  }
}
