/** The x86-64 code patcher of src/common/utils/hook.cpp: branches, far jumps, trampolines, address
    injection and the one-byte hook shift. The functions say what a patch does to the process, and the
    lemmas run the patched bytes; the class in module Patcher performs the patches in place. */
module Hook {
  import opened Options
  import opened Words
  import opened CodeMemory
  import opened NearMemory

  const TRAMPOLINE_SIZE: nat := 14

  /** Mapped memory together with the static trampoline pool. */
  datatype Process = Process(mem: Memory, pools: seq<Region>)

  ghost predicate ValidProcess(p: Process, g: nat) {
    && IsGranularity(g)
    && ValidPools(p.pools, g)
    && forall r | r in p.pools :: Mapped(p.mem, r.buffer, g)
  }

  /** The system offers only unmapped regions, and none at address 0: that answer is its refusal. */
  ghost predicate FreeGrants(p: Process, g: nat, grants: set<Word>) {
    forall b | b in grants :: 0 < b && b + g <= TWO_64 && forall x: Word | b <= x < b + g :: x !in p.mem
  }

  /** A patch site: mapped bytes outside the part of the pool that is still to be handed out. */
  ghost predicate Patchable(p: Process, a: Word, n: nat) {
    && Mapped(p.mem, a, n)
    && forall r | r in p.pools && r.offset < r.length :: Apart(a, n, r.buffer + r.offset, r.length - r.offset)
  }

  lemma FreeIsFresh(p: Process, g: nat, grants: set<Word>)
    requires ValidProcess(p, g) && FreeGrants(p, g, grants)
    ensures FreshGrants(p.pools, g, grants)
  {
    forall b, r | b in grants && r in p.pools
      ensures Apart(b, g, r.buffer, g)
    {
      assert r.buffer in p.mem;
      assert b !in p.mem;
    }
  }

  predicate Within(x: Word, b: Word, n: nat) {
    b <= x < b + n
  }

  /** A fresh region arrives zero-filled. */
  function Commit(mem: Memory, b: Word, n: nat): (mem': Memory)
    requires b + n <= TWO_64
    ensures Mapped(mem', b, n)
    ensures mem.Keys <= mem'.Keys
    ensures forall x | x in mem && !Within(x, b, n) :: mem'[x] == mem[x]
    ensures forall x | x in mem' && x !in mem :: Within(x, b, n) && mem'[x] == 0
  {
    mem + map x: Word | b <= x < b + n && Within(x, b, n) :: 0
  }

  /** `get_memory_near` on a process: a granted region is committed before it joins the pool. */
  function Reserve(p: Process, g: nat, address: Word, size: nat, s: System): (r: (Grant, Process))
    requires ValidProcess(p, g) && FreeGrants(p, g, s.Offered())
  {
    var (grant, pools) := GetMemoryNear(p.pools, g, address, size, s);
    if |pools| > |p.pools| then
      GrantIsReachableExactlyWhen(address, g, s);
      (grant, Process(Commit(p.mem, pools[|p.pools|].buffer, g), pools))
    else
      (grant, Process(p.mem, pools))
  }

  /** What a successful reservation of `size` bytes at `t` gives its caller. */
  ghost predicate ReservedFor(p: Process, p': Process, t: Word, size: nat) {
    && Patchable(p', t, size)
    && forall a: Word, n: nat | Patchable(p, a, n) && n > 0 :: Patchable(p', a, n) && Apart(a, n, t, size)
  }

  /** Mapped bytes stay mapped and keep their values, new ones are zero. */
  ghost predicate Extends(mem: Memory, mem': Memory) {
    && mem.Keys <= mem'.Keys
    && forall x | x in mem' :: if x in mem then mem'[x] == mem[x] else mem'[x] == 0
  }

  lemma BumpReserves(p: Process, g: nat, i: nat, size: nat)
    requires ValidProcess(p, g) && i < |p.pools| && size > 0 && p.pools[i].offset + size <= p.pools[i].length
    ensures var p' := p.(pools := p.pools[i := p.pools[i].(offset := p.pools[i].offset + size)]);
            ValidProcess(p', g) && ReservedFor(p, p', p.pools[i].GetPtr(), size)
  {
    var r := p.pools[i];
    var r' := r.(offset := r.offset + size);
    var p' := p.(pools := p.pools[i := r']);
    assert r in p.pools;
    BumpIsFresh(p.pools, g, i, size);
    BumpedRegions(p.pools, p'.pools, i, r');
    var t := r.GetPtr();
    assert t == r.buffer + r.offset;
    assert ValidProcess(p', g);
    BumpedBlock(p, g, i, size);
    hide ValidPools, IsGranularity, Wrap;
    forall a: Word, n: nat | Patchable(p, a, n) && n > 0
      ensures Patchable(p', a, n) && Apart(a, n, t, size)
    {
      BumpNarrows(p, i, r', a, n);
    }
  }

  lemma BumpedRegions(pools: seq<Region>, pools': seq<Region>, i: nat, r': Region)
    requires i < |pools| && pools' == pools[i := r']
    ensures forall q | q in pools' :: q == r' || exists j: nat :: j < |pools| && j != i && q == pools[j]
  {
    forall q | q in pools'
      ensures q == r' || exists j: nat :: j < |pools| && j != i && q == pools[j]
    {
      var j :| 0 <= j < |pools| && pools'[j] == q;
    }
  }

  lemma BumpedBlock(p: Process, g: nat, i: nat, size: nat)
    requires ValidProcess(p, g) && i < |p.pools| && p.pools[i].offset + size <= p.pools[i].length
    requires p.pools[i].buffer + p.pools[i].offset < TWO_64
    ensures var r := p.pools[i];
            Patchable(p.(pools := p.pools[i := r.(offset := r.offset + size)]), r.buffer + r.offset, size)
  {
    var r := p.pools[i];
    assert r in p.pools;
    var r' := r.(offset := r.offset + size);
    BumpedRegions(p.pools, p.pools[i := r'], i, r');
  }

  lemma BumpNarrows(p: Process, i: nat, r': Region, a: Word, n: nat)
    requires i < |p.pools| && Patchable(p, a, n) && n > 0
    requires var r := p.pools[i]; r'.buffer == r.buffer && r'.length == r.length && r.offset < r'.offset <= r.length
    ensures Patchable(p.(pools := p.pools[i := r']), a, n)
    ensures var r := p.pools[i]; Apart(a, n, r.buffer + r.offset, r'.offset - r.offset)
  {
    assert p.pools[i] in p.pools;
    forall q | q in p.pools[i := r']
      ensures q == r' || q in p.pools
    {
    }
  }

  lemma CommitReserves(p: Process, g: nat, b: Word, size: nat)
    requires ValidProcess(p, g) && FreeGrants(p, g, {b}) && 0 < size <= g
    ensures var p' := Process(Commit(p.mem, b, g), p.pools + [Region(b, g, size)]);
            ValidProcess(p', g) && ReservedFor(p, p', b, size) && Extends(p.mem, p'.mem)
  {
    FreeIsFresh(p, g, {b});
    var p' := Process(Commit(p.mem, b, g), p.pools + [Region(b, g, size)]);
    forall a: Word, n: nat | Patchable(p, a, n) && n > 0
      ensures Apart(a, n, b, g)
    {
      assert b in {b} && a in p.mem && b !in p.mem;
    }
  }

  /** What a reservation keeps, and what it gives its caller. */
  ghost predicate ReservationSafe(p: Process, g: nat, address: Word, size: nat, s: System, grant: Grant, p': Process)
    requires IsGranularity(g)
  {
    && ValidProcess(p', g)
    && Extends(p.mem, p'.mem)
    && (|p'.pools| == |p.pools| ==> p'.mem == p.mem)
    && (grant.Block? ==>
          && ReservedFor(p, p', grant.at, size)
          && (IsRelativelyFar(address, grant.at, 5) <==> GoesAstray(p.pools, g, address, size, s)))
  }

  /** What a reservation comes to: the pool is asked first, and the request is refused exactly when neither the
      pool nor the system has anything near. */
  ghost predicate ReservationRight(p: Process, g: nat, address: Word, size: nat, s: System, grant: Grant, p': Process)
    requires IsGranularity(g)
  {
    && ReservationSafe(p, g, address, size, s, grant, p')
    && !grant.NullPointer?
    && ServedRight(p.pools, g, address, size, s, grant, p'.pools)
    && (grant.OutOfReach? <==> NothingNear(p.pools, g, address, size, s))
    && (grant.OutOfReach? ==> p' == p)
  }

  lemma BumpIsSafe(p: Process, g: nat, address: Word, size: nat, s: System)
    requires ValidProcess(p, g) && FreeGrants(p, g, s.Offered()) && 0 < size <= g
    requires FirstFit(p.pools, address, size) < |p.pools|
    ensures var (grant, p') := Reserve(p, g, address, size, s);
            ReservationSafe(p, g, address, size, s, grant, p')
  {
    var i := FirstFit(p.pools, address, size);
    BumpReserves(p, g, i, size);
    hide ReservedFor, ValidProcess, FreeGrants, IsRelativelyFar, FirstFit, NearestProbe, Commit;
    assert Reserve(p, g, address, size, s) ==
           (Block(p.pools[i].GetPtr()), p.(pools := p.pools[i := p.pools[i].(offset := p.pools[i].offset + size)]));
    hide GetMemoryNear, Reserve;
  }

  lemma CommitIsSafe(p: Process, g: nat, address: Word, size: nat, s: System)
    requires ValidProcess(p, g) && FreeGrants(p, g, s.Offered()) && 0 < size <= g
    requires FirstFit(p.pools, address, size) == |p.pools| && NearestGrant(address, g, s).Some?
    ensures var (grant, p') := Reserve(p, g, address, size, s);
            ReservationSafe(p, g, address, size, s, grant, p')
  {
    var b := NearestGrant(address, g, s).value;
    GrantIsReachableExactlyWhen(address, g, s);
    assert FreeGrants(p, g, {b});
    CommitReserves(p, g, b, size);
    assert (p.pools + [Region(b, g, size)])[|p.pools|].buffer == b;
    hide ReservedFor, ValidProcess, FreeGrants, IsRelativelyFar, Strays, NearestGrant, Extends, Commit;
  }

  lemma ReserveIsSafe(p: Process, g: nat, address: Word, size: nat, s: System)
    requires ValidProcess(p, g) && FreeGrants(p, g, s.Offered()) && 0 < size <= g
    ensures var (grant, p') := Reserve(p, g, address, size, s);
            ReservationSafe(p, g, address, size, s, grant, p')
  {
    if FirstFit(p.pools, address, size) < |p.pools| {
      BumpIsSafe(p, g, address, size, s);
    } else if NearestGrant(address, g, s).Some? {
      CommitIsSafe(p, g, address, size, s);
    } else {
      hide ValidProcess, FreeGrants, NearestGrant;
      assert Reserve(p, g, address, size, s) == (OutOfReach, p);
    }
    hide *;
  }

  /** A reservation hands out what the request for memory does, on the pool of the process. */
  lemma ReserveIsRequest(p: Process, g: nat, address: Word, size: nat, s: System)
    requires ValidProcess(p, g) && FreeGrants(p, g, s.Offered())
    ensures var (grant, p') := Reserve(p, g, address, size, s);
            (grant, p'.pools) == GetMemoryNear(p.pools, g, address, size, s)
  {
    hide GetMemoryNear, ValidProcess, FreeGrants, Commit;
  }

  /** A reservation keeps the process valid, leaves every mapped byte alone and yields a block that can be
      patched and shares no byte with any site patchable before; it can be reached from the requester
      unless the request went astray. It comes from the first pool region that can serve it, and from the
      system only when none can. */
  lemma ReserveIsFresh(p: Process, g: nat, address: Word, size: nat, s: System)
    requires ValidProcess(p, g) && FreeGrants(p, g, s.Offered()) && 0 < size <= g
    ensures var (grant, p') := Reserve(p, g, address, size, s);
            ReservationRight(p, g, address, size, s, grant, p')
  {
    ReserveIsSafe(p, g, address, size, s);
    ReserveIsRequest(p, g, address, size, s);
    RequestServed(p.pools, g, address, size, s);
    assert IsGranularity(g);
    hide ReservationSafe, ServedRight, Reserve, GetMemoryNear, NothingNear, ValidProcess, FreeGrants;
    var (grant, p') := Reserve(p, g, address, size, s);
    RefusedWhen(p.pools, g, address, size, s, grant, p'.pools);
    NothingCommitted(p, g, address, size, s);
  }

  lemma NothingCommitted(p: Process, g: nat, address: Word, size: nat, s: System)
    requires ValidProcess(p, g) && FreeGrants(p, g, s.Offered()) && 0 < size <= g
    requires var (grant, p') := Reserve(p, g, address, size, s);
             ReservationSafe(p, g, address, size, s, grant, p')
    ensures var (grant, p') := Reserve(p, g, address, size, s);
            p'.pools == p.pools ==> p' == p
  {
    hide Reserve, ValidProcess, FreeGrants, Extends, ReservedFor, GoesAstray, IsRelativelyFar;
  }

  // ---- Emitted bytes and what running them does ----

  const CALL: Byte := 0xE8
  const JMP: Byte := 0xE9

  function BranchBytes(opcode: Byte, pointer: Word, data: Word): (s: seq<Byte>)
    ensures |s| == 5
  {
    [opcode] + Encode32(Displacement(pointer, data, 5))
  }

  /** `FF 25 00000000` followed by the target: jump through the quadword right behind the instruction. */
  function FarSafeBytes(data: Word): (s: seq<Byte>)
    ensures |s| == TRAMPOLINE_SIZE
  {
    [0xFF, 0x25, 0, 0, 0, 0] + Encode64(data)
  }

  /** `48 B8 imm64; FF E0`: load the target into rax and jump to it. */
  function FarBytes(data: Word): (s: seq<Byte>)
    ensures |s| == 12
  {
    [0x48, 0xB8] + Encode64(data) + [0xFF, 0xE0]
  }

  /** A written branch decodes to a branch to its target. */
  lemma BranchDecodes(mem: Memory, a: Word, opcode: Byte, data: Word)
    requires opcode == CALL || opcode == JMP
    requires Holds(mem, a, BranchBytes(opcode, a, data)) && !IsRelativelyFar(a, data, 5)
    ensures Decode(mem, a) == if opcode == JMP then JumpRelative(data) else CallRelative(data, Wrap(a + 5))
  {
    var d := Displacement(a, data, 5);
    assert DwordAt(mem, a + 1) == d by {
      ReadSplit(mem, a, 5, 1, 4);
      assert BranchBytes(opcode, a, data)[1..5] == Encode32(d);
      Codec32(d);
    }
    assert Reaches(a, 5, Signed32(d), data) by {
      FarMeansUnreachable(a, data, 5);
    }
    assert OneByte(mem, a, opcode) by {
      assert Read(mem, a, 5)[0] == BranchBytes(opcode, a, data)[0];
    }
    hide IsRelativelyFar, Displacement, BranchBytes, Read, DwordAt;
  }

  lemma FarSafeDecodes(mem: Memory, a: Word, data: Word)
    requires Holds(mem, a, FarSafeBytes(data))
    ensures Decode(mem, a) == JumpIndirect(a + 6) && QwordAt(mem, a + 6) == data
  {
    assert TwoBytes(mem, a, 0xFF, 0x25) by {
      assert Read(mem, a, 14)[0] == 0xFF && Read(mem, a, 14)[1] == 0x25;
    }
    assert DwordAt(mem, a + 2) == 0 by {
      ReadSplit(mem, a, 14, 2, 4);
      assert FarSafeBytes(data)[2..6] == [0, 0, 0, 0];
      ZeroDword();
    }
    assert QwordAt(mem, a + 6) == data by {
      ReadSplit(mem, a, 14, 6, 8);
      assert FarSafeBytes(data)[6..14] == Encode64(data);
      Codec64(data);
    }
    assert Wrap(a + 6 + Signed32(0)) == a + 6;
    hide FarSafeBytes, Read, DwordAt, QwordAt, Wrap;
  }

  lemma ZeroDword()
    ensures Decode32([0, 0, 0, 0]) == 0
  {
    Codec32(0);
    assert LittleEndian(0, 2) == [0, 0];
    assert Encode32(0) == [0, 0] + LittleEndian(0, 2);
  }

  lemma FarDecodes(mem: Memory, a: Word, data: Word)
    requires Holds(mem, a, FarBytes(data))
    ensures Decode(mem, a) == LoadRax(data)
    ensures Decode(mem, a + 10) == JumpRax
  {
    assert TwoBytes(mem, a, 0x48, 0xB8) && TwoBytes(mem, a + 10, 0xFF, 0xE0) by {
      var s := Read(mem, a, 12);
      assert s[0] == 0x48 && s[1] == 0xB8 && s[10] == 0xFF && s[11] == 0xE0;
    }
    assert QwordAt(mem, a + 2) == data by {
      ReadSplit(mem, a, 12, 2, 8);
      assert FarBytes(data)[2..10] == Encode64(data);
      Codec64(data);
    }
    hide FarBytes, Read, DwordAt, QwordAt;
  }

  lemma FarRuns(m: Machine, data: Word)
    requires Holds(m.mem, m.cpu.rip, FarBytes(data))
    ensures Run(m, 2) == Running(m.(cpu := m.cpu.(rip := data, rax := data)))
  {
    var rip: int := m.cpu.rip;
    FarFits(m.mem, m.cpu.rip, data);
    FarDecodes(m.mem, m.cpu.rip, data);
    hide Decode, FarBytes, Wrap, Run, Holds;
    var next := m.(cpu := m.cpu.(rip := rip + 10, rax := data));
    var last := next.(cpu := next.cpu.(rip := data));
    TwoSteps(m, next, last);
  }

  lemma FarFits(mem: Memory, a: Word, data: Word)
    requires Holds(mem, a, FarBytes(data))
    ensures a + 10 < 0x1_0000_0000_0000_0000 && Wrap(a + 10) == a + 10
  {
    hide FarBytes, Read;
  }

  lemma TwoSteps(m: Machine, next: Machine, last: Machine)
    requires Step(m) == Running(next) && Step(next) == Running(last)
    ensures Run(m, 2) == Running(last)
  {
    hide Step;
    assert Run(next, 1) == Run(last, 0);
  }

  // ---- Patches ----

  /** The system as a recursion meets it at one request for memory after another; after the last it refuses. */
  function Now(os: seq<System>): System {
    if os == [] then System({}, None) else os[0]
  }

  function Later(os: seq<System>): seq<System> {
    if os == [] then [] else os[1..]
  }

  /** Every system met on the way offers only free regions. */
  ghost predicate Honest(p: Process, g: nat, pointer: Word, os: seq<System>)
    requires ValidProcess(p, g)
    decreases |os|
  {
    os != [] ==>
      && FreeGrants(p, g, os[0].Offered())
      && (ReserveIsFresh(p, g, pointer, TRAMPOLINE_SIZE, os[0]);
          Honest(Reserve(p, g, pointer, TRAMPOLINE_SIZE, os[0]).1, g, pointer, os[1..]))
  }

  /** The next request for a trampoline, and what is left of the honesty for those after it. */
  lemma NextReservation(p: Process, g: nat, pointer: Word, os: seq<System>)
    requires ValidProcess(p, g) && Honest(p, g, pointer, os)
    ensures FreeGrants(p, g, Now(os).Offered())
    ensures var (grant, p') := Reserve(p, g, pointer, TRAMPOLINE_SIZE, Now(os));
            && ReservationRight(p, g, pointer, TRAMPOLINE_SIZE, Now(os), grant, p')
            && ValidProcess(p', g) && !grant.NullPointer?
            && Honest(p', g, pointer, Later(os))
            && (grant.Block? && IsRelativelyFar(pointer, grant.at, 5) ==> os != [])
  {
    assert FreeGrants(p, g, Now(os).Offered());
    ReserveIsFresh(p, g, pointer, TRAMPOLINE_SIZE, Now(os));
    if os == [] {
      RefusedIsNotAstray(p.pools, g, pointer, TRAMPOLINE_SIZE);
    }
    hide IsRelativelyFar, Reserve, FreeGrants, GoesAstray;
  }

  lemma RefusedIsNotAstray(pools: seq<Region>, g: nat, pointer: Word, size: nat)
    requires IsGranularity(g)
    ensures !GoesAstray(pools, g, pointer, size, System({}, None))
  {
    hide NearestProbe;
  }

  /** How a patch ends: it returns or throws, and leaves the process in some state either way. */
  datatype Patched = Returns(process: Process) | Throws(process: Process)

  lemma StillMapped(mem: Memory, mem': Memory, a: Word, n: nat)
    requires Mapped(mem, a, n) && mem.Keys <= mem'.Keys
    ensures Mapped(mem', a, n)
  {
  }

  /** A call or near jump: five bytes at the site when the target is in range, otherwise the same with a
      trampoline as the target, whose fourteen bytes are written after the recursion has returned. */
  function Redirect(p: Process, g: nat, opcode: Byte, pointer: Word, data: Word, os: seq<System>): (r: Patched)
    requires ValidProcess(p, g) && Honest(p, g, pointer, os) && Mapped(p.mem, pointer, 5)
    ensures p.mem.Keys <= r.process.mem.Keys
    decreases |os|, if IsRelativelyFar(pointer, data, 5) then 1 else 0
  {
    if !IsRelativelyFar(pointer, data, 5) then
      Returns(p.(mem := Write(p.mem, pointer, BranchBytes(opcode, pointer, data))))
    else
      NextReservation(p, g, pointer, os);
      var (grant, p') := Reserve(p, g, pointer, TRAMPOLINE_SIZE, Now(os));
      StillMapped(p.mem, p'.mem, pointer, 5);
      match grant
      case Block(t) => (
        match Redirect(p', g, opcode, pointer, t, Later(os))
        case Throws(q) => Throws(q)
        case Returns(q) =>
          StillMapped(p'.mem, q.mem, t, TRAMPOLINE_SIZE);
          Returns(q.(mem := Write(q.mem, t, FarSafeBytes(data)))))
      case _ => Throws(p')
  }

  /** The trampolines a redirection takes, in the order in which they are reserved. */
  ghost function Trampolines(p: Process, g: nat, pointer: Word, data: Word, os: seq<System>): seq<Word>
    requires ValidProcess(p, g) && Honest(p, g, pointer, os)
    decreases |os|, if IsRelativelyFar(pointer, data, 5) then 1 else 0
  {
    if !IsRelativelyFar(pointer, data, 5) then []
    else
      NextReservation(p, g, pointer, os);
      var (grant, p') := Reserve(p, g, pointer, TRAMPOLINE_SIZE, Now(os));
      if grant.Block? then [grant.at] + Trampolines(p', g, pointer, grant.at, Later(os)) else []
  }

  /** How many calls are under way at once, counting those for a target that is far. */
  ghost function Depth(p: Process, g: nat, pointer: Word, data: Word, os: seq<System>): nat
    requires ValidProcess(p, g) && Honest(p, g, pointer, os)
    decreases |os|, if IsRelativelyFar(pointer, data, 5) then 1 else 0
  {
    if !IsRelativelyFar(pointer, data, 5) then 0
    else
      NextReservation(p, g, pointer, os);
      var (grant, p') := Reserve(p, g, pointer, TRAMPOLINE_SIZE, Now(os));
      1 + if grant.Block? then Depth(p', g, pointer, grant.at, Later(os)) else 0
  }

  /** The requests for a trampoline near the site end without one: nothing near is to be had, perhaps after
      some answers that went astray. */
  ghost predicate NoTrampoline(p: Process, g: nat, pointer: Word, os: seq<System>)
    requires ValidProcess(p, g) && Honest(p, g, pointer, os)
    decreases |os|
  {
    NextReservation(p, g, pointer, os);
    var (grant, p') := Reserve(p, g, pointer, TRAMPOLINE_SIZE, Now(os));
    || NothingNear(p.pools, g, pointer, TRAMPOLINE_SIZE, Now(os))
    || (os != [] && grant.Block? && IsRelativelyFar(pointer, grant.at, 5) && NoTrampoline(p', g, pointer, Later(os)))
  }

  function PatchSize(useFar: bool, useSafe: bool): nat {
    if !useFar then 5 else if useSafe then TRAMPOLINE_SIZE else 12
  }

  function Jump(p: Process, g: nat, pointer: Word, data: Word, useFar: bool, useSafe: bool, os: seq<System>): Patched
    requires ValidProcess(p, g) && Honest(p, g, pointer, os) && Mapped(p.mem, pointer, PatchSize(useFar, useSafe))
  {
    if !useFar then Redirect(p, g, JMP, pointer, data, os)
    else Returns(p.(mem := Write(p.mem, pointer, if useSafe then FarSafeBytes(data) else FarBytes(data))))
  }

  function Call(p: Process, g: nat, pointer: Word, data: Word, os: seq<System>): Patched
    requires ValidProcess(p, g) && Honest(p, g, pointer, os) && Mapped(p.mem, pointer, 5)
  {
    Redirect(p, g, CALL, pointer, data, os)
  }

  /** The machine gets from `m` to `m'` in at most `limit` instructions. */
  ghost predicate Arrives(m: Machine, m': Machine, limit: nat) {
    exists n: nat :: n <= limit && Run(m, n) == Running(m')
  }

  lemma ArrivesAfter(m: Machine, mid: Machine, m': Machine, limit: nat)
    requires Step(m) == Running(mid) && Arrives(mid, m', limit)
    ensures Arrives(m, m', limit + 1)
  {
    var n: nat :| n <= limit && Run(mid, n) == Running(m');
    assert Run(m, n + 1) == Running(m');
  }

  lemma ArrivesAtOnce(m: Machine)
    ensures Arrives(m, m, 0)
  {
    assert Run(m, 0) == Running(m);
  }

  /** The bytes from `pointer` transfer control to `data` and touch nothing else: no register, no memory. */
  ghost predicate JumpsTo(mem: Memory, pointer: Word, data: Word, limit: nat) {
    forall cpu: Cpu | cpu.rip == pointer :: Arrives(Machine(cpu, mem), Machine(cpu.(rip := data), mem), limit)
  }

  /** As `JumpsTo`, except that the target ends up in rax as well. */
  ghost predicate JumpsThroughRax(mem: Memory, pointer: Word, data: Word, limit: nat) {
    forall cpu: Cpu | cpu.rip == pointer ::
      Arrives(Machine(cpu, mem), Machine(cpu.(rip := data, rax := data), mem), limit)
  }

  /** The bytes from `pointer` act as one call instruction to `data` with return address `pointer + 5`,
      for every stack that is memory of its own. */
  ghost predicate Calls(p: Process, mem: Memory, pointer: Word, data: Word, limit: nat) {
    forall cpu: Cpu | cpu.rip == pointer && Patchable(p, Wrap(cpu.rsp - 8), 8) && Mapped(mem, Wrap(cpu.rsp - 8), 8) ::
      CallArrives(Machine(cpu, mem), data, limit)
  }

  ghost predicate CallArrives(m: Machine, data: Word, limit: nat)
    requires Mapped(m.mem, Wrap(m.cpu.rsp - 8), 8)
  {
    Arrives(m, CallStep(m, data, Wrap(m.cpu.rip + 5)).machine, limit)
  }

  // ---- What a patch leaves in memory ----

  ghost predicate WithinAny(x: Word, ts: seq<Word>) {
    exists t | t in ts :: Within(x, t, TRAMPOLINE_SIZE)
  }

  /** Blocks that can be patched now and shared no byte with anything patchable before, or with each other. */
  ghost predicate FreshBlocks(p: Process, p': Process, ts: seq<Word>) {
    && (forall t | t in ts :: FreshBlock(p, p', t))
    && (forall i, j | 0 <= i < j < |ts| :: Apart(ts[i], TRAMPOLINE_SIZE, ts[j], TRAMPOLINE_SIZE))
  }

  ghost predicate FreshBlock(p: Process, p': Process, t: Word) {
    && Patchable(p', t, TRAMPOLINE_SIZE)
    && forall a: Word, n: nat | Patchable(p, a, n) && n > 0 :: Apart(a, n, t, TRAMPOLINE_SIZE)
  }

  /** Nothing but the site and the blocks is different; a region committed on the way is zero elsewhere. */
  ghost predicate SamePlaces(mem: Memory, mem': Memory, pointer: Word, size: nat, ts: seq<Word>) {
    && mem.Keys <= mem'.Keys
    && forall x | x in mem' && !Within(x, pointer, size) && !WithinAny(x, ts) ::
         if x in mem then mem'[x] == mem[x] else mem'[x] == 0
  }

  ghost predicate OnlyPatched(p: Process, p': Process, pointer: Word, size: nat, ts: seq<Word>) {
    FreshBlocks(p, p', ts) && SamePlaces(p.mem, p'.mem, pointer, size, ts)
  }

  /** Sites that could be patched before can still be patched. */
  ghost predicate StillPatchable(p: Process, p': Process) {
    forall a: Word, n: nat | Patchable(p, a, n) && n > 0 :: Patchable(p', a, n)
  }

  /** A branch at the site to the last of the trampolines, or to the target when there are none; every
      trampoline leads to the one reserved before it, the first one to the target. */
  ghost predicate Installed(mem: Memory, opcode: Byte, pointer: Word, data: Word, ts: seq<Word>) {
    && !IsRelativelyFar(pointer, Entry(data, ts), 5)
    && Holds(mem, pointer, BranchBytes(opcode, pointer, Entry(data, ts)))
    && forall i | 0 <= i < |ts| :: Hop(mem, data, ts, i)
  }

  function Entry(data: Word, ts: seq<Word>): Word {
    if ts == [] then data else ts[|ts| - 1]
  }

  ghost predicate Hop(mem: Memory, data: Word, ts: seq<Word>, i: nat)
    requires i < |ts|
  {
    Holds(mem, ts[i], FarSafeBytes(if i == 0 then data else ts[i - 1]))
  }

  lemma DirectPatch(p: Process, g: nat, pointer: Word, bytes: seq<Byte>)
    requires ValidProcess(p, g) && Patchable(p, pointer, |bytes|)
    ensures var p' := p.(mem := Write(p.mem, pointer, bytes));
            && ValidProcess(p', g)
            && OnlyPatched(p, p', pointer, |bytes|, [])
            && Holds(p'.mem, pointer, bytes)
            && StillPatchable(p, p')
  {
  }

  lemma PatchedAfterReserve(p: Process, p1: Process, q: Process, g: nat, pointer: Word, t: Word, data: Word,
                            ts: seq<Word>)
    requires Extends(p.mem, p1.mem) && ReservedFor(p, p1, t, TRAMPOLINE_SIZE) && Patchable(p, pointer, 5)
    requires ValidProcess(q, g) && StillPatchable(p1, q) && OnlyPatched(p1, q, pointer, 5, ts)
    ensures Mapped(q.mem, t, TRAMPOLINE_SIZE)
    ensures var p' := q.(mem := Write(q.mem, t, FarSafeBytes(data)));
            ValidProcess(p', g) && StillPatchable(p, p') && OnlyPatched(p, p', pointer, 5, [t] + ts)
  {
    assert Patchable(p1, t, TRAMPOLINE_SIZE) && Patchable(q, t, TRAMPOLINE_SIZE);
    var p' := q.(mem := Write(q.mem, t, FarSafeBytes(data)));
    assert ValidProcess(p', g) && StillPatchable(q, p');
    BlocksAfterReserve(p, p1, q, p', t, ts);
    PlacesAfterReserve(p.mem, p1.mem, q.mem, p'.mem, pointer, t, ts);
    hide FarSafeBytes, ValidProcess, Patchable, SamePlaces, FreshBlocks;
  }

  lemma BlocksAfterReserve(p: Process, p1: Process, q: Process, p': Process, t: Word, ts: seq<Word>)
    requires ReservedFor(p, p1, t, TRAMPOLINE_SIZE) && FreshBlocks(p1, q, ts)
    requires StillPatchable(p1, q) && StillPatchable(q, p')
    ensures FreshBlocks(p, p', [t] + ts)
  {
    hide Patchable;
    var all := [t] + ts;
    forall b | b in all
      ensures FreshBlock(p, p', b)
    {
      if b != t {
        assert FreshBlock(p1, q, b);
      }
    }
    forall i, j | 0 <= i < j < |all|
      ensures Apart(all[i], TRAMPOLINE_SIZE, all[j], TRAMPOLINE_SIZE)
    {
      assert FreshBlock(p1, q, ts[j - 1]);
    }
  }

  lemma PlacesAfterReserve(mem: Memory, mem1: Memory, mid: Memory, mem': Memory, pointer: Word, t: Word, ts: seq<Word>)
    requires Extends(mem, mem1) && SamePlaces(mem1, mid, pointer, 5, ts)
    requires mem'.Keys == mid.Keys && forall x | x in mid && !Within(x, t, TRAMPOLINE_SIZE) :: mem'[x] == mid[x]
    ensures SamePlaces(mem, mem', pointer, 5, [t] + ts)
  {
    forall x | x in mem' && !Within(x, pointer, 5) && !WithinAny(x, [t] + ts)
      ensures if x in mem then mem'[x] == mem[x] else mem'[x] == 0
    {
      assert t in [t] + ts && forall b | b in ts :: b in [t] + ts;
      assert !WithinAny(x, ts) && !Within(x, t, TRAMPOLINE_SIZE);
    }
  }

  /** Bytes that stand somewhere still stand there after a change elsewhere. */
  lemma HoldsElsewhere(mem: Memory, a: Word, bytes: seq<Byte>, t: Word, other: seq<Byte>)
    requires Holds(mem, a, bytes) && Mapped(mem, t, |other|) && Apart(a, |bytes|, t, |other|)
    ensures Holds(Write(mem, t, other), a, bytes)
  {
    ReadApart(mem, t, other, a, |bytes|);
  }

  lemma InstalledAfterReserve(q: Process, opcode: Byte, pointer: Word, t: Word, data: Word, ts: seq<Word>)
    requires Mapped(q.mem, t, TRAMPOLINE_SIZE) && Apart(pointer, 5, t, TRAMPOLINE_SIZE)
    requires forall b | b in ts :: Apart(t, TRAMPOLINE_SIZE, b, TRAMPOLINE_SIZE)
    requires Installed(q.mem, opcode, pointer, t, ts)
    ensures Installed(Write(q.mem, t, FarSafeBytes(data)), opcode, pointer, data, [t] + ts)
  {
    var mem, all := Write(q.mem, t, FarSafeBytes(data)), [t] + ts;
    assert Entry(t, ts) == Entry(data, all);
    HoldsElsewhere(q.mem, pointer, BranchBytes(opcode, pointer, Entry(t, ts)), t, FarSafeBytes(data));
    assert Holds(mem, t, FarSafeBytes(data));
    hide BranchBytes, FarSafeBytes, IsRelativelyFar, Holds, Entry;
    forall i | 0 <= i < |all|
      ensures Hop(mem, data, all, i)
    {
      if i > 0 {
        assert Hop(q.mem, t, ts, i - 1);
        assert ts[i - 1] in ts;
        HoldsElsewhere(q.mem, all[i], FarSafeBytes(all[i - 1]), t, FarSafeBytes(data));
      }
    }
  }

  /** What a redirection comes to. */
  ghost predicate RedirectRight(p: Process, g: nat, opcode: Byte, pointer: Word, data: Word, os: seq<System>)
    requires ValidProcess(p, g) && Honest(p, g, pointer, os) && Patchable(p, pointer, 5)
  {
    var r, ts := Redirect(p, g, opcode, pointer, data, os), Trampolines(p, g, pointer, data, os);
    && ValidProcess(r.process, g) && StillPatchable(p, r.process)
    && (r.Returns? ==> OnlyPatched(p, r.process, pointer, 5, ts) && Installed(r.process.mem, opcode, pointer, data, ts))
    && (r.Throws? ==> Extends(p.mem, r.process.mem))
    && (r.Throws? <==> IsRelativelyFar(pointer, data, 5) && NoTrampoline(p, g, pointer, os))
  }

  lemma DirectIsRight(p: Process, g: nat, opcode: Byte, pointer: Word, data: Word, os: seq<System>)
    requires ValidProcess(p, g) && Honest(p, g, pointer, os) && Patchable(p, pointer, 5)
    requires !IsRelativelyFar(pointer, data, 5)
    ensures RedirectRight(p, g, opcode, pointer, data, os)
  {
    hide IsRelativelyFar, ValidProcess, Honest, Patchable, OnlyPatched, Holds, BranchBytes, StillPatchable,
         NoTrampoline;
    DirectPatch(p, g, pointer, BranchBytes(opcode, pointer, data));
  }

  /** Whatever the systems answer: a redirection that returns has installed a branch that leads to the target
      through its trampolines, and changed nothing but the site and those; it throws exactly when the
      target is far and the requests for memory end without a trampoline, and then no mapped byte is
      different. */
  lemma {:induction false} RedirectInstalls(p: Process, g: nat, opcode: Byte, pointer: Word, data: Word,
                                            os: seq<System>)
    requires ValidProcess(p, g) && Honest(p, g, pointer, os) && Patchable(p, pointer, 5)
    ensures RedirectRight(p, g, opcode, pointer, data, os)
    decreases |os|, if IsRelativelyFar(pointer, data, 5) then 1 else 0
  {
    if !IsRelativelyFar(pointer, data, 5) {
      DirectIsRight(p, g, opcode, pointer, data, os);
    } else {
      NextReservation(p, g, pointer, os);
      var (grant, p1) := Reserve(p, g, pointer, TRAMPOLINE_SIZE, Now(os));
      if grant.Block? {
        assert Patchable(p1, pointer, 5);
        RedirectInstalls(p1, g, opcode, pointer, grant.at, Later(os));
        OneMoreTrampoline(p, g, opcode, pointer, data, os);
      } else {
        NothingAtHand(p, g, opcode, pointer, data, os);
      }
    }
    hide *;
  }

  lemma NothingAtHand(p: Process, g: nat, opcode: Byte, pointer: Word, data: Word, os: seq<System>)
    requires ValidProcess(p, g) && Honest(p, g, pointer, os) && Patchable(p, pointer, 5)
    requires IsRelativelyFar(pointer, data, 5) && FreeGrants(p, g, Now(os).Offered())
    requires Reserve(p, g, pointer, TRAMPOLINE_SIZE, Now(os)).0.OutOfReach?
    ensures RedirectRight(p, g, opcode, pointer, data, os)
  {
    NextReservation(p, g, pointer, os);
    hide IsRelativelyFar, ValidProcess, Honest, Patchable, FreeGrants, Reserve, NearestGrant, OnlyPatched, Installed;
    assert Redirect(p, g, opcode, pointer, data, os) == Throws(p);
  }

  lemma OneMoreTrampoline(p: Process, g: nat, opcode: Byte, pointer: Word, data: Word, os: seq<System>)
    requires ValidProcess(p, g) && Honest(p, g, pointer, os) && Patchable(p, pointer, 5)
    requires IsRelativelyFar(pointer, data, 5) && FreeGrants(p, g, Now(os).Offered())
    requires var (grant, p1) := Reserve(p, g, pointer, TRAMPOLINE_SIZE, Now(os));
             && grant.Block? && ValidProcess(p1, g) && Honest(p1, g, pointer, Later(os)) && Patchable(p1, pointer, 5)
             && RedirectRight(p1, g, opcode, pointer, grant.at, Later(os))
    ensures RedirectRight(p, g, opcode, pointer, data, os)
  {
    NextReservation(p, g, pointer, os);
    var (grant, p1) := Reserve(p, g, pointer, TRAMPOLINE_SIZE, Now(os));
    var t := grant.at;
    var q := Redirect(p1, g, opcode, pointer, t, Later(os)).process;
    var ts := Trampolines(p1, g, pointer, t, Later(os));
    OneMoreUnfolds(p, g, opcode, pointer, data, os);
    if Redirect(p1, g, opcode, pointer, t, Later(os)).Returns? {
      PatchedAfterReserve(p, p1, q, g, pointer, t, data, ts);
      BlockApart(p, p1, q, pointer, t, ts);
      InstalledAfterReserve(q, opcode, pointer, t, data, ts);
    }
    hide IsRelativelyFar, ValidProcess, Honest, Patchable, FreeGrants, Reserve, OnlyPatched, Installed,
         Redirect, Trampolines, NoTrampoline, Write;
  }

  lemma BlockApart(p: Process, p1: Process, q: Process, pointer: Word, t: Word, ts: seq<Word>)
    requires ReservedFor(p, p1, t, TRAMPOLINE_SIZE) && Patchable(p, pointer, 5) && FreshBlocks(p1, q, ts)
    ensures Apart(pointer, 5, t, TRAMPOLINE_SIZE)
    ensures forall b | b in ts :: Apart(t, TRAMPOLINE_SIZE, b, TRAMPOLINE_SIZE)
  {
    hide Patchable, Apart;
  }

  /** One level of the recursion. */
  lemma OneMoreUnfolds(p: Process, g: nat, opcode: Byte, pointer: Word, data: Word, os: seq<System>)
    requires ValidProcess(p, g) && Honest(p, g, pointer, os) && Patchable(p, pointer, 5)
    requires IsRelativelyFar(pointer, data, 5) && FreeGrants(p, g, Now(os).Offered())
    requires var (grant, p1) := Reserve(p, g, pointer, TRAMPOLINE_SIZE, Now(os));
             grant.Block? && ValidProcess(p1, g) && Honest(p1, g, pointer, Later(os)) && Patchable(p1, pointer, 5)
    ensures var (grant, p1) := Reserve(p, g, pointer, TRAMPOLINE_SIZE, Now(os));
            var r := Redirect(p, g, opcode, pointer, data, os);
            var r1 := Redirect(p1, g, opcode, pointer, grant.at, Later(os));
            && (r.Returns? <==> r1.Returns?)
            && (r1.Throws? ==> r == r1)
            && (r1.Returns? ==> Mapped(r1.process.mem, grant.at, TRAMPOLINE_SIZE)
                                && r.process == r1.process.(mem := Write(r1.process.mem, grant.at, FarSafeBytes(data))))
            && Trampolines(p, g, pointer, data, os) == [grant.at] + Trampolines(p1, g, pointer, grant.at, Later(os))
            && (NoTrampoline(p, g, pointer, os) <==>
                  IsRelativelyFar(pointer, grant.at, 5) && NoTrampoline(p1, g, pointer, Later(os)))
  {
    NextReservation(p, g, pointer, os);
    hide IsRelativelyFar, ValidProcess, Honest, Patchable, FreeGrants, Reserve, Write, ReservedFor, Extends,
         FarSafeBytes;
  }

  // ---- Running an installed branch ----

  /** Code whose first instruction goes to `t`, from where control reaches `data`. */
  lemma JumpThenJump(mem: Memory, pointer: Word, t: Word, data: Word, limit: nat)
    requires Decode(mem, pointer) == JumpRelative(t) && JumpsTo(mem, t, data, limit)
    ensures JumpsTo(mem, pointer, data, limit + 1)
  {
    forall cpu: Cpu | cpu.rip == pointer
      ensures Arrives(Machine(cpu, mem), Machine(cpu.(rip := data), mem), limit + 1)
    {
      ArrivesAfter(Machine(cpu, mem), Machine(cpu.(rip := t), mem), Machine(cpu.(rip := data), mem), limit);
    }
  }

  lemma AlreadyThere(mem: Memory, data: Word)
    ensures JumpsTo(mem, data, data, 0)
  {
    forall cpu: Cpu | cpu.rip == data
      ensures Arrives(Machine(cpu, mem), Machine(cpu.(rip := data), mem), 0)
    {
      ArrivesAtOnce(Machine(cpu, mem));
    }
  }

  /** A far jump to code from where control reaches `data`. */
  lemma FarSafeThenJump(mem: Memory, pointer: Word, t: Word, data: Word, limit: nat)
    requires Holds(mem, pointer, FarSafeBytes(t)) && JumpsTo(mem, t, data, limit)
    ensures JumpsTo(mem, pointer, data, limit + 1)
  {
    FarSafeDecodes(mem, pointer, t);
    ReadSplit(mem, pointer, 14, 6, 8);
    hide Decode, FarSafeBytes, QwordAt;
    forall cpu: Cpu | cpu.rip == pointer
      ensures Arrives(Machine(cpu, mem), Machine(cpu.(rip := data), mem), limit + 1)
    {
      ArrivesAfter(Machine(cpu, mem), Machine(cpu.(rip := t), mem), Machine(cpu.(rip := data), mem), limit);
    }
  }

  lemma FarSafeJumps(mem: Memory, pointer: Word, data: Word)
    requires Holds(mem, pointer, FarSafeBytes(data))
    ensures JumpsTo(mem, pointer, data, 1)
  {
    AlreadyThere(mem, data);
    FarSafeThenJump(mem, pointer, data, data, 0);
  }

  lemma FarJumps(mem: Memory, pointer: Word, data: Word)
    requires Holds(mem, pointer, FarBytes(data))
    ensures JumpsThroughRax(mem, pointer, data, 2)
  {
    forall cpu: Cpu | cpu.rip == pointer
      ensures Arrives(Machine(cpu, mem), Machine(cpu.(rip := data, rax := data), mem), 2)
    {
      FarRuns(Machine(cpu, mem), data);
    }
  }

  /** From any of the trampolines control hops down to the target. */
  lemma {:induction false} HopsLead(mem: Memory, data: Word, ts: seq<Word>, i: nat)
    requires i < |ts| && forall k | 0 <= k < |ts| :: Hop(mem, data, ts, k)
    ensures JumpsTo(mem, ts[i], data, i + 1)
    decreases i
  {
    assert Hop(mem, data, ts, i);
    hide JumpsTo, FarSafeBytes;
    if i == 0 {
      FarSafeJumps(mem, ts[0], data);
    } else {
      HopsLead(mem, data, ts, i - 1);
      FarSafeThenJump(mem, ts[i], ts[i - 1], data, i);
    }
  }

  lemma EntryLeads(mem: Memory, data: Word, ts: seq<Word>)
    requires forall k | 0 <= k < |ts| :: Hop(mem, data, ts, k)
    ensures JumpsTo(mem, Entry(data, ts), data, |ts|)
  {
    hide JumpsTo, Hop;
    if ts == [] {
      AlreadyThere(mem, data);
    } else {
      HopsLead(mem, data, ts, |ts| - 1);
    }
  }

  lemma InstalledJumps(mem: Memory, pointer: Word, data: Word, ts: seq<Word>)
    requires Installed(mem, JMP, pointer, data, ts)
    ensures JumpsTo(mem, pointer, data, |ts| + 1)
  {
    EntryLeads(mem, data, ts);
    BranchDecodes(mem, pointer, JMP, Entry(data, ts));
    hide JumpsTo, Decode, Entry, BranchBytes;
    JumpThenJump(mem, pointer, Entry(data, ts), data, |ts|);
  }

  /** The memory after a call instruction has pushed its return address. */
  ghost predicate IsCallStack(m: Machine, stack: Memory) {
    Mapped(m.mem, Wrap(m.cpu.rsp - 8), 8) && stack == Push(m.mem, m.cpu.rsp, Wrap(m.cpu.rip + 5))
  }

  ghost predicate DecodesCall(m: Machine, t: Word) {
    Decode(m.mem, m.cpu.rip) == CallRelative(t, Wrap(m.cpu.rip + 5))
  }

  /** A call whose target only jumps on is a call to where it jumps. */
  lemma CallThenJump(m: Machine, t: Word, data: Word, stack: Memory, limit: nat)
    requires IsCallStack(m, stack) && DecodesCall(m, t) && JumpsTo(stack, t, data, limit)
    ensures Mapped(m.mem, Wrap(m.cpu.rsp - 8), 8) && CallArrives(m, data, limit + 1)
  {
    hide Decode, Push;
    var mid := Machine(m.cpu.(rip := t, rsp := Wrap(m.cpu.rsp - 8)), stack);
    var m' := Machine(mid.cpu.(rip := data), stack);
    ArrivesAfter(m, mid, m', limit);
  }

  /** The pushed return address lands on the stack, clear of the trampolines, which then run unharmed. */
  lemma InstalledCalls(m: Machine, data: Word, ts: seq<Word>)
    requires Installed(m.mem, CALL, m.cpu.rip, data, ts)
    requires Mapped(m.mem, Wrap(m.cpu.rsp - 8), 8)
    requires forall t | t in ts :: Apart(Wrap(m.cpu.rsp - 8), 8, t, TRAMPOLINE_SIZE)
    ensures CallArrives(m, data, |ts| + 1)
  {
    hide Decode, BranchBytes, FarSafeBytes, Entry, CallArrives, Wrap, IsRelativelyFar, Hop, JumpsTo, Encode64;
    var back := Wrap(m.cpu.rip + 5);
    var stack := Push(m.mem, m.cpu.rsp, back);
    BranchDecodes(m.mem, m.cpu.rip, CALL, Entry(data, ts));
    HopsUnderStack(m.mem, data, ts, Wrap(m.cpu.rsp - 8), Encode64(back));
    EntryLeads(stack, data, ts);
    CallThenJump(m, Entry(data, ts), data, stack, |ts|);
  }

  lemma HopsUnderStack(mem: Memory, data: Word, ts: seq<Word>, a: Word, bytes: seq<Byte>)
    requires Mapped(mem, a, |bytes|) && forall i | 0 <= i < |ts| :: Hop(mem, data, ts, i)
    requires forall t | t in ts :: Apart(a, |bytes|, t, TRAMPOLINE_SIZE)
    ensures forall i | 0 <= i < |ts| :: Hop(Write(mem, a, bytes), data, ts, i)
  {
    hide Hop, Write, Mapped, Apart;
    forall i | 0 <= i < |ts|
      ensures Hop(Write(mem, a, bytes), data, ts, i)
    {
      assert ts[i] in ts;
      HopElsewhere(mem, data, ts, i, a, bytes);
    }
  }

  lemma HopElsewhere(mem: Memory, data: Word, ts: seq<Word>, i: nat, a: Word, bytes: seq<Byte>)
    requires i < |ts| && Hop(mem, data, ts, i) && Mapped(mem, a, |bytes|)
    requires Apart(a, |bytes|, ts[i], TRAMPOLINE_SIZE)
    ensures Hop(Write(mem, a, bytes), data, ts, i)
  {
    HoldsElsewhere(mem, ts[i], FarSafeBytes(if i == 0 then data else ts[i - 1]), a, bytes);
    hide FarSafeBytes;
  }

  /** An installed call is a call for every stack that is memory of its own. */
  lemma InstalledIsCall(p: Process, p': Process, pointer: Word, data: Word, ts: seq<Word>)
    requires Installed(p'.mem, CALL, pointer, data, ts) && forall t | t in ts :: FreshBlock(p, p', t)
    ensures Calls(p, p'.mem, pointer, data, |ts| + 1)
  {
    hide Installed, CallArrives, Patchable;
    forall cpu: Cpu | cpu.rip == pointer && Patchable(p, Wrap(cpu.rsp - 8), 8) && Mapped(p'.mem, Wrap(cpu.rsp - 8), 8)
      ensures CallArrives(Machine(cpu, p'.mem), data, |ts| + 1)
    {
      assert forall t | t in ts :: FreshBlock(p, p', t);
      InstalledCalls(Machine(cpu, p'.mem), data, ts);
    }
  }

  // ---- The main results on patches ----

  /** Whenever a near jump patch returns, running the site transfers control to `data` with every register
      and all memory untouched, in one instruction more than there are trampolines on the way, and nothing
      but the site and those fresh blocks was written. */
  lemma NearJumpReachesTarget(p: Process, g: nat, pointer: Word, data: Word, os: seq<System>)
    requires ValidProcess(p, g) && Honest(p, g, pointer, os) && Patchable(p, pointer, 5)
    ensures var r, ts := Redirect(p, g, JMP, pointer, data, os), Trampolines(p, g, pointer, data, os);
            && ValidProcess(r.process, g)
            && StillPatchable(p, r.process)
            && (r.Returns? ==>
                  OnlyPatched(p, r.process, pointer, 5, ts) && JumpsTo(r.process.mem, pointer, data, |ts| + 1))
            && (r.Throws? ==> Extends(p.mem, r.process.mem))
            && (r.Throws? <==> IsRelativelyFar(pointer, data, 5) && NoTrampoline(p, g, pointer, os))
  {
    RedirectInstalls(p, g, JMP, pointer, data, os);
    hide Redirect, Trampolines, Installed, JumpsTo, OnlyPatched, ValidProcess, Honest, Patchable,
         StillPatchable, NoTrampoline, IsRelativelyFar, Extends;
    var r, ts := Redirect(p, g, JMP, pointer, data, os), Trampolines(p, g, pointer, data, os);
    if r.Returns? {
      InstalledJumps(r.process.mem, pointer, data, ts);
    }
  }

  /** Whenever a jump patch returns, for every pair of addresses, every choice of flags, every pool and all
      answers of the system, running the site transfers control to `data` with every register and all
      memory untouched (only the unsafe far form leaves the target in rax), and nothing but the site and
      the trampolines was written. It throws exactly when a near jump is out of range and the requests for
      memory end without a trampoline. */
  lemma JumpReachesTarget(p: Process, g: nat, pointer: Word, data: Word, useFar: bool, useSafe: bool, os: seq<System>)
    requires ValidProcess(p, g) && Honest(p, g, pointer, os) && Patchable(p, pointer, PatchSize(useFar, useSafe))
    ensures var r := Jump(p, g, pointer, data, useFar, useSafe, os);
            var ts := if useFar then [] else Trampolines(p, g, pointer, data, os);
            && ValidProcess(r.process, g)
            && StillPatchable(p, r.process)
            && (r.Returns? ==>
                  && OnlyPatched(p, r.process, pointer, PatchSize(useFar, useSafe), ts)
                  && (useFar && !useSafe ==> JumpsThroughRax(r.process.mem, pointer, data, 2))
                  && (!useFar || useSafe ==> JumpsTo(r.process.mem, pointer, data, |ts| + 1)))
            && (r.Throws? ==> Extends(p.mem, r.process.mem))
            && (r.Throws? <==> !useFar && IsRelativelyFar(pointer, data, 5) && NoTrampoline(p, g, pointer, os))
  {
    hide *;
    MappedSite(p, pointer, PatchSize(useFar, useSafe));
    if useFar {
      FarPatchReachesTarget(p, g, pointer, data, useSafe, os);
    } else {
      NearJumpIsRedirect(p, g, pointer, data, useSafe, os);
      NearJumpReachesTarget(p, g, pointer, data, os);
    }
  }

  lemma MappedSite(p: Process, pointer: Word, n: nat)
    requires Patchable(p, pointer, n)
    ensures Mapped(p.mem, pointer, n)
  {
  }

  lemma NearJumpIsRedirect(p: Process, g: nat, pointer: Word, data: Word, useSafe: bool, os: seq<System>)
    requires ValidProcess(p, g) && Honest(p, g, pointer, os) && Mapped(p.mem, pointer, PatchSize(false, useSafe))
    ensures PatchSize(false, useSafe) == 5
    ensures Jump(p, g, pointer, data, false, useSafe, os) == Redirect(p, g, JMP, pointer, data, os)
  {
    hide Redirect, Mapped, ValidProcess, Honest;
  }

  lemma FarPatchReachesTarget(p: Process, g: nat, pointer: Word, data: Word, useSafe: bool, os: seq<System>)
    requires ValidProcess(p, g) && Honest(p, g, pointer, os)
    requires Patchable(p, pointer, PatchSize(true, useSafe)) && Mapped(p.mem, pointer, PatchSize(true, useSafe))
    ensures var r := Jump(p, g, pointer, data, true, useSafe, os);
            && r.Returns? && ValidProcess(r.process, g) && StillPatchable(p, r.process)
            && OnlyPatched(p, r.process, pointer, PatchSize(true, useSafe), [])
            && (!useSafe ==> JumpsThroughRax(r.process.mem, pointer, data, 2))
            && (useSafe ==> JumpsTo(r.process.mem, pointer, data, 1))
  {
    hide ValidProcess, StillPatchable, OnlyPatched, JumpsTo, JumpsThroughRax, Patchable, Honest, FarSafeBytes,
         FarBytes, Write, Holds, Mapped;
    var r := Jump(p, g, pointer, data, true, useSafe, os);
    DirectPatch(p, g, pointer, if useSafe then FarSafeBytes(data) else FarBytes(data));
    if useSafe {
      FarSafeJumps(r.process.mem, pointer, data);
    } else {
      FarJumps(r.process.mem, pointer, data);
    }
  }

  /** Whenever a call patch returns, running the site calls `data`: the return address `pointer + 5` is pushed
      on whatever stack the machine has, and control is at `data` after one instruction more than there are
      trampolines on the way. */
  lemma CallReachesTarget(p: Process, g: nat, pointer: Word, data: Word, os: seq<System>)
    requires ValidProcess(p, g) && Honest(p, g, pointer, os) && Patchable(p, pointer, 5)
    ensures var r, ts := Call(p, g, pointer, data, os), Trampolines(p, g, pointer, data, os);
            && ValidProcess(r.process, g)
            && StillPatchable(p, r.process)
            && (r.Returns? ==>
                  OnlyPatched(p, r.process, pointer, 5, ts) && Calls(p, r.process.mem, pointer, data, |ts| + 1))
            && (r.Throws? ==> Extends(p.mem, r.process.mem))
            && (r.Throws? <==> IsRelativelyFar(pointer, data, 5) && NoTrampoline(p, g, pointer, os))
  {
    RedirectInstalls(p, g, CALL, pointer, data, os);
    hide Redirect, Trampolines, Installed, Calls, SamePlaces, ValidProcess, Honest, Patchable, StillPatchable,
         NoTrampoline, IsRelativelyFar, Extends;
    var r, ts := Redirect(p, g, CALL, pointer, data, os), Trampolines(p, g, pointer, data, os);
    if r.Returns? {
      InstalledIsCall(p, r.process, pointer, data, ts);
    }
  }

  // ---- The pool comes first ----

  /** The one trampoline of a patch is the next free bytes of the first region that can serve the site, and
      nothing of the pool but that region's offset is different. */
  ghost predicate OneFromPool(pools: seq<Region>, pools': seq<Region>, pointer: Word, ts: seq<Word>, i: nat) {
    && i < |pools| && CanServe(pools[i], pointer, TRAMPOLINE_SIZE)
    && NoneServes(pools[..i], pointer, TRAMPOLINE_SIZE)
    && ts == [Wrap(pools[i].buffer + pools[i].offset)]
    && pools' == pools[i := Region(pools[i].buffer, pools[i].length, pools[i].offset + TRAMPOLINE_SIZE)]
  }

  /** What a patch takes from the pool, whatever the system: nothing when its target is in range; otherwise, when
      some region can serve the site, it never throws, no region is added and no memory committed. */
  lemma PoolServesPatch(p: Process, g: nat, opcode: Byte, pointer: Word, data: Word, os: seq<System>)
    requires ValidProcess(p, g) && Honest(p, g, pointer, os) && Patchable(p, pointer, 5)
    ensures var r, ts := Redirect(p, g, opcode, pointer, data, os), Trampolines(p, g, pointer, data, os);
            && (!IsRelativelyFar(pointer, data, 5) ==> r.Returns? && r.process.pools == p.pools && ts == [])
            && (IsRelativelyFar(pointer, data, 5) && !NoneServes(p.pools, pointer, TRAMPOLINE_SIZE) ==>
                  && r.Returns? && r.process.mem.Keys == p.mem.Keys
                  && exists i: nat :: OneFromPool(p.pools, r.process.pools, pointer, ts, i))
  {
    if IsRelativelyFar(pointer, data, 5) && !NoneServes(p.pools, pointer, TRAMPOLINE_SIZE) {
      NextReservation(p, g, pointer, os);
      var (grant, p') := Reserve(p, g, pointer, TRAMPOLINE_SIZE, Now(os));
      hide *;
      var i: nat := TakenHere(p, g, pointer, Now(os), grant, p');
      TakenUnfolds(p, g, opcode, pointer, data, os);
      OneIsTaken(p.pools, p'.pools, i, pointer, grant);
    } else {
      hide IsRelativelyFar, Reserve, ValidProcess, Honest, Patchable, NoneServes;
    }
  }

  lemma TakenHere(p: Process, g: nat, pointer: Word, s: System, grant: Grant, p': Process) returns (i: nat)
    requires IsGranularity(g) && ReservationRight(p, g, pointer, TRAMPOLINE_SIZE, s, grant, p')
    requires !NoneServes(p.pools, pointer, TRAMPOLINE_SIZE)
    ensures TakenFrom(p.pools, p'.pools, i, pointer, TRAMPOLINE_SIZE, grant)
    ensures grant.Block? && !IsRelativelyFar(pointer, grant.at, 5)
    ensures p'.mem == p.mem
  {
    hide NoneServes, IsRelativelyFar, ReservedFor, ValidProcess, Extends, GoesAstray, NothingNear, NearestGrant;
    i :| TakenFrom(p.pools, p'.pools, i, pointer, TRAMPOLINE_SIZE, grant);
    FarMeansUnreachable(pointer, grant.at, 5);
  }

  lemma TakenUnfolds(p: Process, g: nat, opcode: Byte, pointer: Word, data: Word, os: seq<System>)
    requires ValidProcess(p, g) && Honest(p, g, pointer, os) && Patchable(p, pointer, 5)
    requires IsRelativelyFar(pointer, data, 5) && FreeGrants(p, g, Now(os).Offered())
    requires var (grant, p') := Reserve(p, g, pointer, TRAMPOLINE_SIZE, Now(os));
             grant.Block? && !IsRelativelyFar(pointer, grant.at, 5) && p'.mem == p.mem
    ensures var (grant, p') := Reserve(p, g, pointer, TRAMPOLINE_SIZE, Now(os));
            var r := Redirect(p, g, opcode, pointer, data, os);
            && r.Returns? && r.process.mem.Keys == p.mem.Keys && r.process.pools == p'.pools
            && Trampolines(p, g, pointer, data, os) == [grant.at]
  {
    NextReservation(p, g, pointer, os);
    hide IsRelativelyFar, ValidProcess, Honest, FreeGrants, Reserve, ReservationRight, FarSafeBytes, BranchBytes;
  }

  lemma OneIsTaken(pools: seq<Region>, pools': seq<Region>, i: nat, pointer: Word, grant: Grant)
    requires TakenFrom(pools, pools', i, pointer, TRAMPOLINE_SIZE, grant)
    ensures grant.Block? && OneFromPool(pools, pools', pointer, [grant.at], i)
  {
    hide CanServe, NoneServes;
  }

  /** How many bytes of the pool have been handed out. */
  function HandedOut(pools: seq<Region>): nat {
    if pools == [] then 0 else HandedOut(pools[..|pools| - 1]) + pools[|pools| - 1].offset
  }

  ghost predicate InPool(pools: seq<Region>, t: Word) {
    exists k: nat :: IssuedFrom(pools, k, t, TRAMPOLINE_SIZE)
  }

  /** The pool's account of some trampolines: regions stay and only give out more, fourteen bytes for each of them,
      which lie in what has been given out. */
  ghost predicate Accounted(pools: seq<Region>, pools': seq<Region>, ts: seq<Word>) {
    && Grown(pools, pools')
    && HandedOut(pools') == HandedOut(pools) + TRAMPOLINE_SIZE * |ts|
    && forall t | t in ts :: InPool(pools', t)
  }

  lemma {:induction false} HandedOutUpdate(pools: seq<Region>, i: nat, r: Region)
    requires i < |pools|
    ensures HandedOut(pools[i := r]) == HandedOut(pools) - pools[i].offset + r.offset
    decreases |pools|
  {
    var n := |pools| - 1;
    if i < n {
      assert pools[i := r][..n] == pools[..n][i := r];
      HandedOutUpdate(pools[..n], i, r);
    } else {
      assert pools[i := r][..n] == pools[..n];
    }
  }

  /** One reservation hands out fourteen bytes, or nothing. */
  lemma ReservationAccounted(p: Process, g: nat, pointer: Word, s: System)
    requires ValidProcess(p, g) && FreeGrants(p, g, s.Offered()) && TRAMPOLINE_SIZE <= g
    ensures var (grant, p') := Reserve(p, g, pointer, TRAMPOLINE_SIZE, s);
            Accounted(p.pools, p'.pools, if grant.Block? then [grant.at] else [])
  {
    var (grant, p') := Reserve(p, g, pointer, TRAMPOLINE_SIZE, s);
    FreeIsFresh(p, g, s.Offered());
    ReserveIsRequest(p, g, pointer, TRAMPOLINE_SIZE, s);
    assert IsGranularity(g) && ValidPools(p.pools, g);
    hide *;
    assert TRAMPOLINE_SIZE > 0 by {
      TrampolineSize();
    }
    GetMemoryNearIsFresh(p.pools, g, pointer, TRAMPOLINE_SIZE, s);
    ServedSum(p.pools, g, pointer, s, grant, p'.pools);
    BlockInPool(p.pools, p'.pools, grant);
  }

  lemma TrampolineSize()
    ensures TRAMPOLINE_SIZE == 14
  {
  }

  lemma ServedSum(pools: seq<Region>, g: nat, pointer: Word, s: System, grant: Grant, pools': seq<Region>)
    requires IsGranularity(g) && ServedRight(pools, g, pointer, TRAMPOLINE_SIZE, s, grant, pools')
    requires TRAMPOLINE_SIZE <= g
    ensures HandedOut(pools') == HandedOut(pools) + if grant.Block? then TRAMPOLINE_SIZE else 0
  {
    hide NoneServes, CanServe, NearestGrant;
    if i: nat :| TakenFrom(pools, pools', i, pointer, TRAMPOLINE_SIZE, grant) {
      HandedOutUpdate(pools, i, Region(pools[i].buffer, pools[i].length, pools[i].offset + TRAMPOLINE_SIZE));
    }
    if |pools'| == |pools| + 1 {
      assert pools'[..|pools|] == pools;
    }
  }

  lemma BlockInPool(pools: seq<Region>, pools': seq<Region>, grant: Grant)
    requires Grown(pools, pools') && HandedOut(pools') == HandedOut(pools) + if grant.Block? then TRAMPOLINE_SIZE else 0
    requires grant.Block? ==> BlockFresh(pools, pools', grant.at, TRAMPOLINE_SIZE)
    ensures Accounted(pools, pools', if grant.Block? then [grant.at] else [])
  {
    hide Grown, HandedOut, IssuedFrom, Unissued;
  }

  lemma AccountedTwice(pools: seq<Region>, mid: seq<Region>, pools': seq<Region>, t: Word, ts: seq<Word>)
    requires Accounted(pools, mid, [t]) && Accounted(mid, pools', ts)
    ensures Accounted(pools, pools', [t] + ts)
  {
    GrownTwice(pools, mid, pools');
    assert t in [t];
    var k: nat :| IssuedFrom(mid, k, t, TRAMPOLINE_SIZE);
    assert IssuedFrom(pools', k, t, TRAMPOLINE_SIZE);
    hide IssuedFrom, Grown, HandedOut;
  }

  /** Whatever the systems answer, and whether the patch returns or throws: the pool has handed out fourteen bytes for
      each trampoline the recursion took and nothing else, and every trampoline lies in what was handed out. */
  lemma {:induction false} TrampolinesComeFromPool(p: Process, g: nat, opcode: Byte, pointer: Word, data: Word,
                                                   os: seq<System>)
    requires ValidProcess(p, g) && Honest(p, g, pointer, os) && Patchable(p, pointer, 5)
    ensures var r, ts := Redirect(p, g, opcode, pointer, data, os), Trampolines(p, g, pointer, data, os);
            Accounted(p.pools, r.process.pools, ts)
    decreases |os|, if IsRelativelyFar(pointer, data, 5) then 1 else 0
  {
    if !IsRelativelyFar(pointer, data, 5) {
      PoolServesPatch(p, g, opcode, pointer, data, os);
      NothingAccounted(p.pools);
      hide *;
    } else {
      NextReservation(p, g, pointer, os);
      ReservationAccounted(p, g, pointer, Now(os));
      var (grant, p1) := Reserve(p, g, pointer, TRAMPOLINE_SIZE, Now(os));
      if grant.Block? {
        assert Patchable(p1, pointer, 5);
        TrampolinesComeFromPool(p1, g, opcode, pointer, grant.at, Later(os));
        OneMoreUnfolds(p, g, opcode, pointer, data, os);
        OneMorePool(p, g, opcode, pointer, data, os);
        var q := Redirect(p1, g, opcode, pointer, grant.at, Later(os)).process;
        AccountedTwice(p.pools, p1.pools, q.pools, grant.at, Trampolines(p1, g, pointer, grant.at, Later(os)));
      } else {
        NoMorePool(p, g, opcode, pointer, data, os);
      }
      hide *;
    }
  }

  lemma NothingAccounted(pools: seq<Region>)
    ensures Accounted(pools, pools, [])
  {
  }

  lemma OneMorePool(p: Process, g: nat, opcode: Byte, pointer: Word, data: Word, os: seq<System>)
    requires ValidProcess(p, g) && Honest(p, g, pointer, os) && Patchable(p, pointer, 5)
    requires IsRelativelyFar(pointer, data, 5) && FreeGrants(p, g, Now(os).Offered())
    requires var (grant, p1) := Reserve(p, g, pointer, TRAMPOLINE_SIZE, Now(os));
             grant.Block? && ValidProcess(p1, g) && Honest(p1, g, pointer, Later(os)) && Patchable(p1, pointer, 5)
    ensures var (grant, p1) := Reserve(p, g, pointer, TRAMPOLINE_SIZE, Now(os));
            Redirect(p, g, opcode, pointer, data, os).process.pools ==
            Redirect(p1, g, opcode, pointer, grant.at, Later(os)).process.pools
  {
    OneMoreUnfolds(p, g, opcode, pointer, data, os);
    hide *;
  }

  lemma NoMorePool(p: Process, g: nat, opcode: Byte, pointer: Word, data: Word, os: seq<System>)
    requires ValidProcess(p, g) && Honest(p, g, pointer, os) && Patchable(p, pointer, 5)
    requires IsRelativelyFar(pointer, data, 5) && FreeGrants(p, g, Now(os).Offered())
    requires !Reserve(p, g, pointer, TRAMPOLINE_SIZE, Now(os)).0.Block?
    ensures Redirect(p, g, opcode, pointer, data, os).process == Reserve(p, g, pointer, TRAMPOLINE_SIZE, Now(os)).1
    ensures Trampolines(p, g, pointer, data, os) == []
  {
    NextReservation(p, g, pointer, os);
    hide IsRelativelyFar, ValidProcess, Honest, Patchable, FreeGrants, Reserve, ReservationRight;
  }

  // ---- How deep the recursion goes ----

  /** A patch recurses at most once, through at most one trampoline, exactly when its target is in range or
      its request for memory did not go astray. */
  lemma RecursesOnceExactlyWhen(p: Process, g: nat, pointer: Word, data: Word, os: seq<System>)
    requires ValidProcess(p, g) && Honest(p, g, pointer, os)
    ensures var astray := GoesAstray(p.pools, g, pointer, TRAMPOLINE_SIZE, Now(os));
            && (Depth(p, g, pointer, data, os) <= 1 <==> !(IsRelativelyFar(pointer, data, 5) && astray))
            && |Trampolines(p, g, pointer, data, os)| <= Depth(p, g, pointer, data, os)
            && (!astray ==> (NoTrampoline(p, g, pointer, os) <==>
                               NothingNear(p.pools, g, pointer, TRAMPOLINE_SIZE, Now(os))))
  {
    NextReservation(p, g, pointer, os);
    TrampolinesWithinDepth(p, g, pointer, data, os);
    hide IsRelativelyFar, GoesAstray, Reserve, FreeGrants, Honest, ValidProcess, ReservedFor, Extends;
  }

  lemma {:induction false} TrampolinesWithinDepth(p: Process, g: nat, pointer: Word, data: Word, os: seq<System>)
    requires ValidProcess(p, g) && Honest(p, g, pointer, os)
    ensures |Trampolines(p, g, pointer, data, os)| <= Depth(p, g, pointer, data, os)
    decreases |os|, if IsRelativelyFar(pointer, data, 5) then 1 else 0
  {
    if IsRelativelyFar(pointer, data, 5) {
      NextReservation(p, g, pointer, os);
      var (grant, p') := Reserve(p, g, pointer, TRAMPOLINE_SIZE, Now(os));
      hide IsRelativelyFar, GoesAstray, Reserve, FreeGrants, Honest, ValidProcess, ReservedFor, Extends;
      if grant.Block? {
        TrampolinesWithinDepth(p', g, pointer, grant.at, Later(os));
      }
    }
  }

  /** Whatever the process and the systems, a patch at a site recurses at most once, exactly when the null
      pointer is not within reach of the site or the search gives up at once. */
  lemma SiteRecursesOnceExactlyWhen(g: nat, pointer: Word)
    requires IsGranularity(g)
    ensures (forall p: Process, data: Word, os: seq<System> | ValidProcess(p, g) && Honest(p, g, pointer, os) ::
               Depth(p, g, pointer, data, os) <= 1)
            <==> IsRelativelyFar(pointer, 0, 5) || pointer % g > g - 5
  {
    hide Depth, Honest, IsRelativelyFar, ValidProcess;
    if IsRelativelyFar(pointer, 0, 5) || pointer % g > g - 5 {
      SearchStaysInReachExactlyWhen(pointer, g);
      forall p: Process, data: Word, os: seq<System> | ValidProcess(p, g) && Honest(p, g, pointer, os)
        ensures Depth(p, g, pointer, data, os) <= 1
      {
        RecursesOnceExactlyWhen(p, g, pointer, data, os);
        assert !Strays(pointer, g, Now(os));
      }
    } else {
      GranularityBound(g);
      assert Room(ELSEWHERE, g, 1);
      LowSiteRecurses(g, pointer, 1);
    }
  }

  /** Systems that answer the null pointer with one region after another, from `at` on, and offer nothing else. */
  function AwayFrom(at: nat, g: nat, n: nat): seq<System>
    requires Room(at, g, n)
    decreases n
  {
    if n == 0 then [] else [System({}, Some(at))] + AwayFrom(at + g, g, n - 1)
  }

  const ELSEWHERE_END: Word := 0x6000_0000_0000_0000

  /** There is room for `n` regions in the part of the address space that starts at `ELSEWHERE`. */
  predicate Room(at: nat, g: nat, n: nat)
    decreases n
  {
    ELSEWHERE <= at <= ELSEWHERE_END && (n == 0 || (at + g <= ELSEWHERE_END && Room(at + g, g, n - 1)))
  }

  /** A process whose memory and pool lie below `at`, with nothing in the pool for the site. */
  ghost predicate Below(p: Process, pointer: Word, at: nat) {
    && (forall x | x in p.mem :: x < at)
    && (forall i | 0 <= i < |p.pools| :: !Serves(p.pools[i], pointer, TRAMPOLINE_SIZE))
  }

  lemma AwayIsFar(pointer: Word, a: Word)
    requires !IsRelativelyFar(pointer, 0, 5) && ELSEWHERE <= a <= ELSEWHERE_END + TRAMPOLINE_SIZE
    ensures IsRelativelyFar(pointer, a, 5)
  {
    NullIsInReachExactlyWhen(pointer);
    if pointer <= TWO_31 - 5 {
      FarUnwrapped(pointer, a);
    } else {
      FarUnwrapped(pointer, a + TWO_64);
      assert Wrap(a + TWO_64) == a;
    }
  }

  /** One answer that goes astray: the region is committed, and serves nobody near the site. */
  lemma StrayReservation(p: Process, g: nat, pointer: Word, at: nat)
    requires ValidProcess(p, g) && pointer % g <= g - 5 && !IsRelativelyFar(pointer, 0, 5)
    requires Below(p, pointer, at) && ELSEWHERE <= at && at + g <= ELSEWHERE_END
    ensures var s := System({}, Some(at));
            && FreeGrants(p, g, s.Offered())
            && var (grant, p') := Reserve(p, g, pointer, TRAMPOLINE_SIZE, s);
            && grant == Block(at) && ValidProcess(p', g) && Below(p', pointer, at + g)
  {
    var s := System({}, Some(at));
    assert s.Offered() == {at};
    assert FreeGrants(p, g, s.Offered());
    ReserveIsFresh(p, g, pointer, TRAMPOLINE_SIZE, s);
    hide ValidProcess, FreeGrants, IsRelativelyFar;
    NothingServes(p.pools, pointer);
    NullIsProbed(pointer, g, s);
    hide NearestProbe, FirstFit;
    AwayIsFar(pointer, at + TRAMPOLINE_SIZE);
    NewRegionBelow(p, g, pointer, at);
  }

  lemma {:induction false} NothingServes(pools: seq<Region>, pointer: Word)
    requires forall i | 0 <= i < |pools| :: !Serves(pools[i], pointer, TRAMPOLINE_SIZE)
    ensures FirstFit(pools, pointer, TRAMPOLINE_SIZE) == |pools|
  {
    hide Serves;
  }

  lemma NewRegionBelow(p: Process, g: nat, pointer: Word, at: Word)
    requires Below(p, pointer, at) && at + g < TWO_64 && at + TRAMPOLINE_SIZE < TWO_64
    requires IsRelativelyFar(pointer, at + TRAMPOLINE_SIZE, 5)
    ensures Below(Process(Commit(p.mem, at, g), p.pools + [Region(at, g, TRAMPOLINE_SIZE)]), pointer, at + g)
  {
    assert Region(at, g, TRAMPOLINE_SIZE).GetPtr() == at + TRAMPOLINE_SIZE;
    hide IsRelativelyFar;
  }

  /** As long as the system keeps answering the null pointer with places out of reach, the recursion goes on,
      one level deeper with each answer: there is no bound on it in the code. */
  lemma {:induction false} RecursionRepeats(p: Process, g: nat, pointer: Word, data: Word, at: nat, n: nat)
    requires ValidProcess(p, g) && pointer % g <= g - 5 && !IsRelativelyFar(pointer, 0, 5)
    requires Below(p, pointer, at) && Room(at, g, n) && IsRelativelyFar(pointer, data, 5)
    ensures Honest(p, g, pointer, AwayFrom(at, g, n))
    ensures Depth(p, g, pointer, data, AwayFrom(at, g, n)) > n
    decreases n
  {
    if n == 0 {
      hide Honest, Depth, ValidProcess, IsRelativelyFar, Below, Room;
      FarIsDeep(p, g, pointer, data);
    } else {
      var os := AwayFrom(at, g, n);
      assert os[0] == System({}, Some(at)) && os[1..] == AwayFrom(at + g, g, n - 1);
      hide AwayFrom, IsRelativelyFar, Reserve, FreeGrants, ValidProcess, Below, Honest, Depth;
      StrayReservation(p, g, pointer, at);
      AwayIsFar(pointer, at);
      var p' := Reserve(p, g, pointer, TRAMPOLINE_SIZE, os[0]).1;
      RecursionRepeats(p', g, pointer, at, at + g, n - 1);
      OneLevelDeeper(p, g, pointer, data, os);
    }
  }

  lemma FarIsDeep(p: Process, g: nat, pointer: Word, data: Word)
    requires ValidProcess(p, g) && IsRelativelyFar(pointer, data, 5)
    ensures Honest(p, g, pointer, []) && Depth(p, g, pointer, data, []) > 0
  {
    hide Reserve, ValidProcess, IsRelativelyFar;
    NextReservation(p, g, pointer, []);
  }

  lemma OneLevelDeeper(p: Process, g: nat, pointer: Word, data: Word, os: seq<System>)
    requires ValidProcess(p, g) && os != [] && FreeGrants(p, g, os[0].Offered()) && IsRelativelyFar(pointer, data, 5)
    requires var (grant, p') := Reserve(p, g, pointer, TRAMPOLINE_SIZE, os[0]);
             grant.Block? && ValidProcess(p', g) && Honest(p', g, pointer, os[1..])
    ensures Honest(p, g, pointer, os)
    ensures var (grant, p') := Reserve(p, g, pointer, TRAMPOLINE_SIZE, os[0]);
            Depth(p, g, pointer, data, os) == 1 + Depth(p', g, pointer, grant.at, os[1..])
  {
    hide IsRelativelyFar, Reserve, FreeGrants, ValidProcess;
  }

  /** At any site within reach of the null pointer, and any depth there is room for: a process and systems
      that send a patch so deep. */
  lemma LowSiteRecurses(g: nat, pointer: Word, n: nat)
    requires IsGranularity(g) && pointer % g <= g - 5 && !IsRelativelyFar(pointer, 0, 5) && Room(ELSEWHERE, g, n)
    ensures exists p: Process, data: Word, os: seq<System> ::
              ValidProcess(p, g) && Honest(p, g, pointer, os) && Depth(p, g, pointer, data, os) > n
  {
    var p := Process(map[], []);
    ElsewhereIsFar(pointer);
    assert ValidProcess(p, g) && Below(p, pointer, ELSEWHERE);
    hide Depth, Honest, IsRelativelyFar, ValidProcess, Below;
    RecursionRepeats(p, g, pointer, ELSEWHERE, ELSEWHERE, n);
  }

  // ---- Address injection and branch following ----

  /** `extract`: the address a 32-bit operand at `address` refers to. */
  function Extract(mem: Memory, address: Word): Word
    requires Mapped(mem, address, 4)
  {
    Wrap(address + Signed32(DwordAt(mem, address)) + 4)
  }

  /** `follow_branch`; None is the thrown exception. */
  function FollowBranch(mem: Memory, address: Word): Option<Word>
    requires Mapped(mem, address, 5)
  {
    if mem[address] != CALL && mem[address] != JMP then None
    else Some(Extract(mem, address + 1))
  }

  /** `inject`: overwrite a 32-bit operand so that it refers to `data`; None is the thrown exception. */
  function Inject(mem: Memory, pointer: Word, data: Word): Option<Memory>
    requires Mapped(mem, pointer, 4)
  {
    if IsRelativelyFar(pointer, data, 4) then None
    else Some(Write(mem, pointer, Encode32(Displacement(pointer, data, 4))))
  }

  /** The same addresses are mapped, and nothing but the `n` bytes from `a` is different. */
  ghost predicate SameBytesBut(mem: Memory, mem': Memory, a: Word, n: nat) {
    mem'.Keys == mem.Keys && forall x | x in mem && !(a <= x < a + n) :: mem'[x] == mem[x]
  }

  lemma DwordWritten(mem: Memory, a: Word, d: Dword)
    requires Mapped(mem, a, 4)
    ensures DwordAt(Write(mem, a, Encode32(d)), a) == d
  {
    Codec32(d);
  }

  /** Injection succeeds exactly when some 32-bit operand refers to the address, extraction undoes it, and no byte
      but the four of the operand is different. */
  lemma ExtractUndoesInject(mem: Memory, pointer: Word, data: Word)
    requires Mapped(mem, pointer, 4)
    ensures var r := Inject(mem, pointer, data);
            && (r.Some? <==> exists d: int :: Reaches(pointer, 4, d, data))
            && (r.Some? ==> Extract(r.value, pointer) == data)
            && (r.Some? ==> SameBytesBut(mem, r.value, pointer, 4))
  {
    hide IsRelativelyFar, Displacement, DwordAt, Write, Encode32, Signed32, Wrap, FitsInt32;
    FarMeansUnreachable(pointer, data, 4);
    var d := Displacement(pointer, data, 4);
    DwordWritten(mem, pointer, d);
    assert pointer + Signed32(d) + 4 == pointer + 4 + Signed32(d);
  }

  /** `follow_branch` finds the place a relative branch goes when it is run. */
  lemma FollowBranchIsTarget(mem: Memory, a: Word)
    requires Mapped(mem, a, 5)
    ensures FollowBranch(mem, a).Some? <==> Decode(mem, a).JumpRelative? || Decode(mem, a).CallRelative?
    ensures FollowBranch(mem, a).Some? ==> Decode(mem, a).target == FollowBranch(mem, a).value
  {
    assert a in mem;
    assert a + 1 + Signed32(DwordAt(mem, a + 1)) + 4 == a + 5 + Signed32(DwordAt(mem, a + 1));
    hide DwordAt, Wrap, Signed32;
  }

  // ---- Moving a hook by one byte ----

  /** A finished `move_hook`: the overwritten bytes, or the exception; the process changes either way. */
  datatype Moved = Moved(process: Process, original: Option<seq<Byte>>)

  /** How many bytes `move_hook` touches, judged by the instruction it finds. */
  function HookSize(mem: Memory, pointer: Word): nat {
    if OneByte(mem, pointer, JMP) then 6
    else if TwoBytes(mem, pointer, 0xFF, 0x25) then 15
    else 0
  }

  ghost predicate Movable(p: Process, pointer: Word) {
    && Patchable(p, pointer, HookSize(p.mem, pointer))
    && (HookSize(p.mem, pointer) == 6 ==> pointer + 1 < TWO_64 && Patchable(p, pointer + 1, 5))
  }

  function Nop(mem: Memory, pointer: Word): Memory
    requires Mapped(mem, pointer, 1)
  {
    Write(mem, pointer, [0x90])
  }

  /** The fourteen bytes of an indirect jump moved up by one, with a NOP in front. */
  function ShiftedIndirect(mem: Memory, pointer: Word): Memory
    requires Mapped(mem, pointer, 15)
  {
    Nop(Write(mem, pointer + 1, Read(mem, pointer, 14)), pointer)
  }

  /** The process with a NOP over the first byte of the hook. */
  function Nopped(p: Process, pointer: Word): Process
    requires Mapped(p.mem, pointer, 1)
  {
    p.(mem := Nop(p.mem, pointer))
  }

  /** A hook that can be moved, with systems that are honest to the jump the move writes. */
  ghost predicate CanMove(p: Process, g: nat, pointer: Word, os: seq<System>) {
    && ValidProcess(p, g) && Movable(p, pointer)
    && (OneByte(p.mem, pointer, JMP) ==>
          ValidProcess(Nopped(p, pointer), g) && Honest(Nopped(p, pointer), g, pointer + 1, os))
  }

  function MoveHook(p: Process, g: nat, pointer: Word, os: seq<System>): Moved
    requires CanMove(p, g, pointer, os)
  {
    if OneByte(p.mem, pointer, JMP) then
      var target := FollowBranch(p.mem, pointer).value;
      match Redirect(Nopped(p, pointer), g, JMP, pointer + 1, target, os)
      case Returns(q) => Moved(q, Some(Read(p.mem, pointer, 6)))
      case Throws(q) => Moved(q, None)
    else if TwoBytes(p.mem, pointer, 0xFF, 0x25) then
      Moved(p.(mem := ShiftedIndirect(p.mem, pointer)), Some(Read(p.mem, pointer, 15)))
    else Moved(p, None)
  }

  lemma NopThenJump(mem: Memory, pointer: Word, data: Word, limit: nat)
    requires OneByte(mem, pointer, 0x90) && JumpsTo(mem, Wrap(pointer + 1), data, limit)
    ensures JumpsTo(mem, pointer, data, limit + 1)
  {
    forall cpu: Cpu | cpu.rip == pointer
      ensures Arrives(Machine(cpu, mem), Machine(cpu.(rip := data), mem), limit + 1)
    {
      var next := Machine(cpu.(rip := Wrap(pointer + 1)), mem);
      ArrivesAfter(Machine(cpu, mem), next, Machine(cpu.(rip := data), mem), limit);
    }
  }

  /** What `OnlyPatched` says about one patchable byte outside the site. */
  lemma UnpatchedByte(p: Process, p': Process, pointer: Word, size: nat, ts: seq<Word>, x: Word)
    requires OnlyPatched(p, p', pointer, size, ts) && Patchable(p, x, 1) && !Within(x, pointer, size)
    ensures x in p'.mem && p'.mem[x] == p.mem[x]
    ensures forall b | OneByte(p.mem, x, b) :: OneByte(p'.mem, x, b)
  {
    forall t | t in ts
      ensures !Within(x, t, TRAMPOLINE_SIZE)
    {
      assert FreshBlock(p, p', t);
    }
  }

  lemma ShiftedDistance(a: int, s: int, target: Word)
    requires 0 <= a && a + 1 < TWO_64 && FitsInt32(s) && Wrap(a + 5 + s) == target
    ensures IsRelativelyFar(a + 1, target, 5) <==> s == -TWO_31
  {
    WrapPlus(a + 6, s - 1);
    DifferenceOfWrapped(a + 6, s - 1, target);
  }

  lemma BranchBeforeMove(mem: Memory, pointer: Word)
    requires Mapped(mem, pointer, 6) && OneByte(mem, pointer, JMP)
    ensures FollowBranch(mem, pointer).Some? && JumpsTo(mem, pointer, FollowBranch(mem, pointer).value, 1)
  {
    hide DwordAt, Wrap, Signed32, JumpsTo;
    var target := FollowBranch(mem, pointer).value;
    FollowBranchIsTarget(mem, pointer);
    AlreadyThere(mem, target);
    JumpThenJump(mem, pointer, target, target, 0);
  }

  lemma JustBefore(p: Process, pointer: Word)
    requires pointer + 1 < TWO_64 && Patchable(p, pointer + 1, 5)
    ensures pointer + 1 < 0x1_0000_0000_0000_0000 && Wrap(pointer + 1) == pointer + 1
    ensures !Within(pointer, pointer + 1, 5) && Mapped(p.mem, pointer + 1, 5)
  {
  }

  lemma BranchAfterMove(nopped: Process, g: nat, pointer: Word, target: Word, os: seq<System>)
    requires ValidProcess(nopped, g) && OneByte(nopped.mem, pointer, 0x90)
    requires pointer + 1 < TWO_64 && Patchable(nopped, pointer, 1) && Patchable(nopped, pointer + 1, 5)
    requires Honest(nopped, g, pointer + 1, os)
    ensures var r := Redirect(nopped, g, JMP, pointer + 1, target, os);
            var ts := Trampolines(nopped, g, pointer + 1, target, os);
            && ValidProcess(r.process, g)
            && (r.Returns? ==> JumpsTo(r.process.mem, pointer, target, |ts| + 2))
            && (r.Returns? ==> OnlyPatched(nopped, r.process, pointer + 1, 5, ts))
            && (r.Throws? ==> Extends(nopped.mem, r.process.mem))
            && (r.Throws? <==> IsRelativelyFar(pointer + 1, target, 5) && NoTrampoline(nopped, g, pointer + 1, os))
  {
    hide *;
    JustBefore(nopped, pointer);
    NearJumpReachesTarget(nopped, g, pointer + 1, target, os);
    var r, ts := Redirect(nopped, g, JMP, pointer + 1, target, os), Trampolines(nopped, g, pointer + 1, target, os);
    if r.Returns? {
      UnpatchedByte(nopped, r.process, pointer + 1, 5, ts, pointer);
      NopThenJump(r.process.mem, pointer, target, |ts| + 1);
    }
  }

  /** Shifting an `E9` hook by one byte keeps where it goes, through trampolines if the shifted branch no
      longer reaches, which it fails to do only for the most negative displacement. It throws exactly for
      that displacement when the requests for memory end without a trampoline, and then leaves the
      one-byte NOP behind and every other mapped byte as it was. */
  lemma MovedBranchKeepsTarget(p: Process, g: nat, pointer: Word, os: seq<System>)
    requires CanMove(p, g, pointer, os) && OneByte(p.mem, pointer, JMP)
    ensures var target := FollowBranch(p.mem, pointer).value;
            var r, nopped := MoveHook(p, g, pointer, os), Nopped(p, pointer);
            var ts := Trampolines(nopped, g, pointer + 1, target, os);
            var lowest := Signed32(DwordAt(p.mem, pointer + 1)) == -TWO_31;
            && JumpsTo(p.mem, pointer, target, 1)
            && (r.original.Some? ==> JumpsTo(r.process.mem, pointer, target, |ts| + 2))
            && (!lowest ==> ts == [])
            && (r.original.None? <==> lowest && NoTrampoline(nopped, g, pointer + 1, os))
            && (r.original.None? ==> Extends(nopped.mem, r.process.mem))
  {
    hide *;
    MoveIsRedirect(p, g, pointer, os);
    MovableSite(p, g, pointer);
    BranchBeforeMove(p.mem, pointer);
    ShiftLeavesRange(p.mem, pointer);
    NoppedProcess(p, g, pointer);
    NoneWhenNear(Nopped(p, pointer), g, pointer + 1, FollowBranch(p.mem, pointer).value, os);
    BranchAfterMove(Nopped(p, pointer), g, pointer, FollowBranch(p.mem, pointer).value, os);
  }

  lemma MoveIsRedirect(p: Process, g: nat, pointer: Word, os: seq<System>)
    requires CanMove(p, g, pointer, os) && OneByte(p.mem, pointer, JMP)
    ensures FollowBranch(p.mem, pointer).Some? && pointer + 1 < 0x1_0000_0000_0000_0000
    ensures ValidProcess(p, g) && Movable(p, pointer)
    ensures ValidProcess(Nopped(p, pointer), g) && Honest(Nopped(p, pointer), g, pointer + 1, os)
    ensures var q := Redirect(Nopped(p, pointer), g, JMP, pointer + 1, FollowBranch(p.mem, pointer).value, os);
            var r := MoveHook(p, g, pointer, os);
            r.process == q.process && (r.original.None? <==> q.Throws?)
  {
    hide Redirect, ValidProcess, Honest, Nop, Patchable;
  }

  lemma NoneWhenNear(p: Process, g: nat, pointer: Word, data: Word, os: seq<System>)
    requires ValidProcess(p, g) && Honest(p, g, pointer, os)
    ensures !IsRelativelyFar(pointer, data, 5) ==> Trampolines(p, g, pointer, data, os) == []
  {
    hide IsRelativelyFar, Reserve, Honest, ValidProcess;
  }

  /** When the request of the shifted branch does not go astray, the move throws exactly when nothing near is
      to be had at once, and then nothing but the NOP is different. */
  lemma MoveThrowsExactlyWhen(p: Process, g: nat, pointer: Word, os: seq<System>)
    requires CanMove(p, g, pointer, os) && OneByte(p.mem, pointer, JMP)
    requires !GoesAstray(p.pools, g, pointer + 1, TRAMPOLINE_SIZE, Now(os))
    ensures var r, nopped := MoveHook(p, g, pointer, os), Nopped(p, pointer);
            && (r.original.None? <==>
                  && Signed32(DwordAt(p.mem, pointer + 1)) == -TWO_31
                  && NothingNear(p.pools, g, pointer + 1, TRAMPOLINE_SIZE, Now(os)))
            && (r.original.None? ==> r.process == nopped)
  {
    var nopped, target := Nopped(p, pointer), FollowBranch(p.mem, pointer).value;
    MovedBranchKeepsTarget(p, g, pointer, os);
    NextReservation(nopped, g, pointer + 1, os);
    RecursesOnceExactlyWhen(nopped, g, pointer + 1, target, os);
    hide JumpsTo, ValidProcess, Honest, FreeGrants, IsRelativelyFar, Reserve, GoesAstray, NoTrampoline,
         DwordAt, Signed32, FollowBranch, Extends, Movable, Nop, Trampolines, Depth, ReservedFor;
    if MoveHook(p, g, pointer, os).original.None? {
      assert Redirect(nopped, g, JMP, pointer + 1, target, os).Throws?;
    }
  }

  /** The bytes an `E9` move touches. */
  lemma MovableSite(p: Process, g: nat, pointer: Word)
    requires ValidProcess(p, g) && Movable(p, pointer) && OneByte(p.mem, pointer, JMP)
    ensures pointer + 1 < 0x1_0000_0000_0000_0000
    ensures Patchable(p, pointer, 6) && Mapped(p.mem, pointer, 6) && Mapped(p.mem, pointer, 1)
    ensures Mapped(p.mem, pointer, 5) && Mapped(p.mem, pointer + 1, 5)
  {
  }

  lemma NoppedProcess(p: Process, g: nat, pointer: Word)
    requires ValidProcess(p, g) && Patchable(p, pointer, 6) && Mapped(p.mem, pointer, 1) && pointer + 1 < TWO_64
    ensures var nopped := Nopped(p, pointer);
            && ValidProcess(nopped, g)
            && Patchable(nopped, pointer, 1) && Patchable(nopped, pointer + 1, 5)
            && OneByte(nopped.mem, pointer, 0x90)
  {
    assert Read(Nop(p.mem, pointer), pointer, 1)[0] == 0x90;
  }

  lemma ShiftLeavesRange(mem: Memory, pointer: Word)
    requires Mapped(mem, pointer, 6) && OneByte(mem, pointer, JMP) && pointer + 1 < TWO_64
    ensures FollowBranch(mem, pointer).Some?
    ensures IsRelativelyFar(pointer + 1, FollowBranch(mem, pointer).value, 5) <==>
            Signed32(DwordAt(mem, pointer + 1)) == -TWO_31
  {
    var s := Signed32(DwordAt(mem, pointer + 1));
    assert FollowBranch(mem, pointer).Some?;
    assert Wrap(pointer + 5 + s) == FollowBranch(mem, pointer).value by {
      assert pointer + 5 + s == pointer + 1 + s + 4;
    }
    ShiftedDistance(pointer, s, FollowBranch(mem, pointer).value);
    hide *;
  }

  /** `un_move`: write the remembered bytes back. */
  function UnMove(mem: Memory, pointer: Word, original: seq<Byte>): Memory
    requires Mapped(mem, pointer, |original|)
  {
    Write(mem, pointer, original)
  }

  /** Rewriting every byte of the site that differs leaves only the trampolines' changes. */
  lemma RewriteSite(p: Process, p': Process, pointer: Word, ts: seq<Word>)
    requires Patchable(p, pointer, 6) && Mapped(p.mem, pointer, 1) && pointer + 1 < TWO_64
    requires OnlyPatched(Nopped(p, pointer), p', pointer + 1, 5, ts)
    ensures Mapped(p'.mem, pointer, 6)
    ensures OnlyPatched(p, p'.(mem := UnMove(p'.mem, pointer, Read(p.mem, pointer, 6))), pointer, 0, ts)
  {
    var nopped, original := Nopped(p, pointer), Read(p.mem, pointer, 6);
    var p2 := p'.(mem := UnMove(p'.mem, pointer, original));
    forall t | t in ts
      ensures FreshBlock(p, p2, t)
    {
      assert FreshBlock(nopped, p', t);
      assert Patchable(p2, t, TRAMPOLINE_SIZE);
      forall a: Word, n: nat | Patchable(p, a, n) && n > 0
        ensures Apart(a, n, t, TRAMPOLINE_SIZE)
      {
        assert Patchable(nopped, a, n);
      }
    }
    hide Patchable, FreshBlock;
    assert SamePlaces(p.mem, p2.mem, pointer, 0, ts);
  }

  /** Undoing a move restores every byte, apart from trampolines the move may have taken; a move that
      stayed in range is undone exactly. */
  lemma UnMoveRestores(p: Process, g: nat, pointer: Word, os: seq<System>)
    requires CanMove(p, g, pointer, os)
    ensures var r := MoveHook(p, g, pointer, os);
            r.original.Some? ==>
              && |r.original.value| == HookSize(p.mem, pointer)
              && Mapped(r.process.mem, pointer, |r.original.value|)
              && var undone := UnMove(r.process.mem, pointer, r.original.value);
              && (exists ts: seq<Word> :: OnlyPatched(p, r.process.(mem := undone), pointer, 0, ts))
              && (!OneByte(p.mem, pointer, JMP) || Signed32(DwordAt(p.mem, pointer + 1)) != -TWO_31 ==> undone == p.mem)
  {
    var r := MoveHook(p, g, pointer, os);
    if r.original.Some? {
      if OneByte(p.mem, pointer, JMP) {
        NearMoveUndone(p, g, pointer, os);
      } else {
        IndirectShiftUndone(p, g, pointer, os);
      }
    }
    hide *;
  }

  lemma NearMoveUndone(p: Process, g: nat, pointer: Word, os: seq<System>)
    requires CanMove(p, g, pointer, os) && OneByte(p.mem, pointer, JMP)
    ensures var r := MoveHook(p, g, pointer, os);
            r.original.Some? ==>
              && |r.original.value| == HookSize(p.mem, pointer)
              && Mapped(r.process.mem, pointer, |r.original.value|)
              && var undone := UnMove(r.process.mem, pointer, r.original.value);
              && (exists ts: seq<Word> :: OnlyPatched(p, r.process.(mem := undone), pointer, 0, ts))
              && (Signed32(DwordAt(p.mem, pointer + 1)) != -TWO_31 ==> undone == p.mem)
  {
    var nopped, target := Nopped(p, pointer), FollowBranch(p.mem, pointer).value;
    var ts := Trampolines(nopped, g, pointer + 1, target, os);
    var r := MoveHook(p, g, pointer, os);
    MovableSite(p, g, pointer);
    NoppedProcess(p, g, pointer);
    hide IsRelativelyFar, ValidProcess, Honest, Patchable, OnlyPatched, Redirect, Nop, FollowBranch, DwordAt,
         Signed32, Mapped, OneByte, UnMove, JumpsTo, NoTrampoline, Extends, Trampolines;
    BranchAfterMove(nopped, g, pointer, target, os);
    ShiftLeavesRange(p.mem, pointer);
    NearShiftUndone(p, g, pointer, os);
    if r.original.Some? {
      RewriteSite(p, r.process, pointer, ts);
    }
  }

  /** Bytes read from a range and written back undo every change confined to that range. */
  lemma WriteBack(mem: Memory, mem': Memory, a: Word, n: nat)
    requires Mapped(mem, a, n) && mem'.Keys == mem.Keys
    requires forall x | x in mem && !Within(x, a, n) :: mem'[x] == mem[x]
    ensures Write(mem', a, Read(mem, a, n)) == mem
  {
  }

  lemma NearShiftUndone(p: Process, g: nat, pointer: Word, os: seq<System>)
    requires CanMove(p, g, pointer, os) && OneByte(p.mem, pointer, JMP)
    ensures var r := MoveHook(p, g, pointer, os);
            var target := FollowBranch(p.mem, pointer).value;
            !IsRelativelyFar(pointer + 1, target, 5) ==>
              && r.original == Some(Read(p.mem, pointer, 6))
              && Mapped(r.process.mem, pointer, 6)
              && UnMove(r.process.mem, pointer, r.original.value) == p.mem
  {
    hide IsRelativelyFar, BranchBytes, ValidProcess, Honest, Reserve;
    var target := FollowBranch(p.mem, pointer).value;
    if !IsRelativelyFar(pointer + 1, target, 5) {
      var mem' := Write(Nop(p.mem, pointer), pointer + 1, BranchBytes(JMP, pointer + 1, target));
      assert MoveHook(p, g, pointer, os).process.mem == mem';
      WriteBack(p.mem, mem', pointer, 6);
    }
  }

  lemma IndirectShiftUndone(p: Process, g: nat, pointer: Word, os: seq<System>)
    requires CanMove(p, g, pointer, os)
    requires !OneByte(p.mem, pointer, JMP) && TwoBytes(p.mem, pointer, 0xFF, 0x25)
    ensures var r := MoveHook(p, g, pointer, os);
            && r.original == Some(Read(p.mem, pointer, 15))
            && Mapped(r.process.mem, pointer, 15)
            && var undone := UnMove(r.process.mem, pointer, r.original.value);
            && undone == p.mem
            && OnlyPatched(p, r.process.(mem := undone), pointer, 0, [])
  {
    hide ValidProcess;
    var mem' := ShiftedIndirect(p.mem, pointer);
    WriteBack(p.mem, mem', pointer, 15);
    var r := MoveHook(p, g, pointer, os);
    assert r.process == p.(mem := mem');
    assert p.(mem := p.mem) == p && SamePlaces(p.mem, p.mem, pointer, 0, []);
  }

  // ---- Moving an indirect jump ----

  /** Where an indirect jump at `pointer` with displacement `d` looks its target up. */
  function Slot(pointer: Word, d: int): Word {
    Wrap(pointer + 6 + d)
  }

  /** A movable `FF 25` hook with displacement `d` whose target quadword is mapped. */
  predicate IndirectHook(mem: Memory, pointer: Word, d: int) {
    && Mapped(mem, pointer, 15)
    && TwoBytes(mem, pointer, 0xFF, 0x25)
    && Signed32(DwordAt(mem, pointer + 2)) == d
    && Mapped(mem, Slot(pointer, d), 8)
  }

  /** The moved hook runs on to where the hook led before the move, by its NOP and its jump. */
  ghost predicate HookKeepsTarget(mem: Memory, mem': Memory, pointer: Word, d: int)
    requires IndirectHook(mem, pointer, d)
  {
    forall cpu: Cpu | cpu.rip == pointer ::
      Run(Machine(cpu, mem'), 2) == Running(Machine(cpu.(rip := QwordAt(mem, Slot(pointer, d))), mem'))
  }

  ghost predicate MoveKeepsTarget(mem: Memory, pointer: Word, d: int)
    requires IndirectHook(mem, pointer, d)
  {
    HookKeepsTarget(mem, ShiftedIndirect(mem, pointer), pointer, d)
  }

  /** The bytes of a moved hook, address by address. */
  lemma ShiftedByte(mem: Memory, pointer: Word, x: Word)
    requires Mapped(mem, pointer, 15) && x in mem
    ensures var mem' := ShiftedIndirect(mem, pointer);
            && x in mem'
            && mem'[x] == if x == pointer then 0x90 else if pointer < x < pointer + 15 then mem[x - 1] else mem[x]
  {
    var mid := Write(mem, pointer + 1, Read(mem, pointer, 14));
    if pointer < x < pointer + 15 {
      assert mid[pointer + 1 + (x - pointer - 1)] == Read(mem, pointer, 14)[x - pointer - 1];
    }
    if x == pointer {
      assert Nop(mid, pointer)[pointer + 0] == [0x90][0];
    }
  }

  lemma ShiftedDecodes(mem: Memory, pointer: Word, d: int)
    requires IndirectHook(mem, pointer, d)
    ensures var mem' := ShiftedIndirect(mem, pointer);
            Decode(mem', pointer) == Instruction.Nop && Decode(mem', pointer + 1) == JumpIndirect(Slot(pointer + 1, d))
  {
    var mem' := ShiftedIndirect(mem, pointer);
    ShiftedByte(mem, pointer, pointer);
    ShiftedByte(mem, pointer, pointer + 1);
    ShiftedByte(mem, pointer, pointer + 2);
    ShiftedRead(mem, pointer, pointer + 3, 4);
    assert DwordAt(mem', pointer + 3) == DwordAt(mem, pointer + 2);
    assert Mapped(mem', pointer + 1, 6);
    hide ShiftedIndirect, DwordAt, Decode, Slot, Signed32;
    DecodesIndirect(mem', pointer + 1, d);
    DecodesNop(mem', pointer);
  }

  lemma DecodesIndirect(mem: Memory, a: Word, d: int)
    requires Mapped(mem, a, 6) && TwoBytes(mem, a, 0xFF, 0x25) && Signed32(DwordAt(mem, a + 2)) == d
    ensures Decode(mem, a) == JumpIndirect(Slot(a, d))
  {
    hide DwordAt, Signed32, Wrap;
  }

  lemma DecodesNop(mem: Memory, a: Word)
    requires OneByte(mem, a, 0x90)
    ensures Decode(mem, a) == Instruction.Nop
  {
    hide DwordAt, Signed32, Wrap, BranchTarget;
  }

  /** A range inside the moved bytes reads as the range one byte lower did. */
  lemma ShiftedRead(mem: Memory, pointer: Word, b: Word, n: nat)
    requires Mapped(mem, pointer, 15) && pointer < b && b + n <= pointer + 15
    ensures var mem' := ShiftedIndirect(mem, pointer);
            Mapped(mem', b, n) && Read(mem', b, n) == Read(mem, b - 1, n)
  {
    var mem' := ShiftedIndirect(mem, pointer);
    forall x: Word | b <= x < b + n
      ensures x in mem' && mem'[x] == mem[x - 1]
    {
      ShiftedByte(mem, pointer, x);
    }
    hide ShiftedIndirect;
  }

  /** The moved hook reads its target from a slot one byte further up. */
  lemma ShiftedRuns(mem: Memory, pointer: Word, d: int, cpu: Cpu)
    requires IndirectHook(mem, pointer, d) && cpu.rip == pointer
    ensures var mem' := ShiftedIndirect(mem, pointer);
            var slot := Slot(pointer + 1, d);
            Run(Machine(cpu, mem'), 2) ==
            if Mapped(mem', slot, 8) then Running(Machine(cpu.(rip := QwordAt(mem', slot)), mem')) else Fault
  {
    hide *;
    RoomBehind(mem, pointer, d);
    ShiftedDecodes(mem, pointer, d);
    NopThenIndirect(Machine(cpu, ShiftedIndirect(mem, pointer)), Slot(pointer + 1, d));
  }

  lemma RoomBehind(mem: Memory, pointer: Word, d: int)
    requires IndirectHook(mem, pointer, d)
    ensures Mapped(mem, pointer, 15)
    ensures pointer + 1 < 0x1_0000_0000_0000_0000 && Wrap(pointer + 1) == pointer + 1
  {
    hide TwoBytes, DwordAt, Slot, Signed32;
  }

  lemma NopThenIndirect(m: Machine, slot: Word)
    requires Decode(m.mem, m.cpu.rip) == Instruction.Nop && Decode(m.mem, Wrap(m.cpu.rip + 1)) == JumpIndirect(slot)
    ensures Run(m, 2) ==
            if Mapped(m.mem, slot, 8) then Running(m.(cpu := m.cpu.(rip := QwordAt(m.mem, slot)))) else Fault
  {
    hide Decode, QwordAt, Wrap;
    var next := m.(cpu := m.cpu.(rip := Wrap(m.cpu.rip + 1)));
    assert Step(m) == Running(next);
    assert Run(m, 2) == Run(next, 1);
    assert Step(next).Running? ==> Run(next, 1) == Run(Step(next).machine, 0);
  }

  lemma QwordsDiffer(mem: Memory, a: Word, mem': Memory, b: Word, k: nat)
    requires Mapped(mem, a, 8) && Mapped(mem', b, 8) && k < 8 && mem[a + k] != mem'[b + k]
    ensures QwordAt(mem, a) != QwordAt(mem', b)
  {
    Codec64Inverse(Read(mem, a, 8));
    Codec64Inverse(Read(mem', b, 8));
    assert Read(mem, a, 8)[k] != Read(mem', b, 8)[k];
    hide Read, Encode64, Decode64;
  }

  /** A target that lies within the moved bytes moves along with the jump. */
  lemma MoveKeepsInnerTarget(mem: Memory, pointer: Word, d: int)
    requires IndirectHook(mem, pointer, d) && -6 <= d <= 0
    ensures MoveKeepsTarget(mem, pointer, d)
  {
    assert Slot(pointer, d) == pointer + 6 + d && Slot(pointer + 1, d) == pointer + 7 + d;
    InnerQwordMoves(mem, pointer, pointer + 7 + d);
    hide ShiftedIndirect, Run, QwordAt, Slot;
    forall cpu: Cpu | cpu.rip == pointer
      ensures Run(Machine(cpu, ShiftedIndirect(mem, pointer)), 2) ==
              Running(Machine(cpu.(rip := QwordAt(mem, Slot(pointer, d))), ShiftedIndirect(mem, pointer)))
    {
      ShiftedRuns(mem, pointer, d, cpu);
    }
  }

  lemma InnerQwordMoves(mem: Memory, pointer: Word, b: Word)
    requires Mapped(mem, pointer, 15) && pointer < b <= pointer + 7
    ensures Mapped(ShiftedIndirect(mem, pointer), b, 8)
    ensures QwordAt(ShiftedIndirect(mem, pointer), b) == QwordAt(mem, b - 1)
  {
    ShiftedRead(mem, pointer, b, 8);
    hide ShiftedIndirect, Read, Decode64;
  }

  /** A moved hook whose old and new slots hold different bytes goes astray. */
  lemma MoveLosesTarget(mem: Memory, pointer: Word, d: int, a: Word, b: Word, k: nat)
    requires IndirectHook(mem, pointer, d) && k < 8
    requires a == Slot(pointer, d) && b == Slot(pointer + 1, d) && Mapped(mem, b, 8)
    requires ShiftedIndirect(mem, pointer)[b + k] != mem[a + k]
    ensures !MoveKeepsTarget(mem, pointer, d)
  {
    var mem' := ShiftedIndirect(mem, pointer);
    assert Mapped(mem', b, 8);
    QwordsDiffer(mem, a, mem', b, k);
    var cpu := Cpu(pointer, 0, 0);
    ShiftedRuns(mem, pointer, d, cpu);
    hide ShiftedIndirect, QwordAt, Slot, Run, IndirectHook;
    assert Run(Machine(cpu, mem'), 2) == Running(Machine(cpu.(rip := QwordAt(mem', b)), mem'));
  }

  const SITE: Word := 0x2_0000_0000

  /** A byte pattern that shows what a move does to an outside target: an indirect jump with displacement
      `d` at `SITE`, a one at `mark`, zeros elsewhere. */
  function PatternByte(d: int, mark: int, x: Word): Byte {
    if x == SITE then 0xFF
    else if x == SITE + 1 then 0x25
    else if SITE + 2 <= x < SITE + 6 then Encode32(d % TWO_32)[x - SITE - 2]
    else if x == mark then 1
    else 0
  }

  function Pattern(d: int, mark: int): (mem: Memory)
    ensures forall x: Word :: x in mem <==> x < 2 * SITE
    ensures forall x | x in mem :: mem[x] == PatternByte(d, mark, x)
  {
    map x: Word | x < 2 * SITE :: PatternByte(d, mark, x)
  }

  lemma PatternMapped(d: int, mark: int, a: Word, n: nat)
    requires a + n <= 2 * SITE
    ensures Mapped(Pattern(d, mark), a, n)
  {
    hide PatternByte;
  }

  lemma PatternOperand(d: int, mark: int)
    ensures Mapped(Pattern(d, mark), SITE + 2, 4) && DwordAt(Pattern(d, mark), SITE + 2) == d % TWO_32
  {
    PatternMapped(d, mark, SITE + 2, 4);
    var operand := Read(Pattern(d, mark), SITE + 2, 4);
    Codec32(d % TWO_32);
    hide Decode32, Read;
    assert forall k | 0 <= k < 4 :: operand[k] == Encode32(d % TWO_32)[k] by {
      hide Encode32;
    }
    hide PatternByte, Encode32;
    assert operand == Encode32(d % TWO_32);
  }

  lemma SignedAgain(d: int)
    requires FitsInt32(d)
    ensures Signed32(d % TWO_32) == d
  {
  }

  lemma SiteSlots(d: int)
    requires FitsInt32(d)
    ensures Slot(SITE, d) == SITE + 6 + d && Slot(SITE + 1, d) == SITE + 7 + d
    ensures 0 <= SITE + 6 + d && SITE + 7 + d + 8 <= 2 * SITE
  {
  }

  lemma PatternIsHook(d: int, mark: int)
    requires FitsInt32(d)
    ensures IndirectHook(Pattern(d, mark), SITE, d)
    ensures Slot(SITE, d) == SITE + 6 + d && Slot(SITE + 1, d) == SITE + 7 + d
    ensures 0 <= SITE + 6 + d && SITE + 7 + d < TWO_64 && Mapped(Pattern(d, mark), SITE + 7 + d, 8)
  {
    var mem := Pattern(d, mark);
    assert TwoBytes(mem, SITE, 0xFF, 0x25);
    SiteSlots(d);
    hide Pattern, PatternByte, Mapped, DwordAt, Slot, Signed32, TwoBytes, FitsInt32;
    SignedAgain(d);
    PatternOperand(d, mark);
    PatternMapped(d, mark, SITE, 15);
    PatternMapped(d, mark, SITE + 6 + d, 8);
    PatternMapped(d, mark, SITE + 7 + d, 8);
  }

  /** What `move_hook` does to a hook that is no `E9` branch: an indirect jump is copied one byte up, all fourteen
      bytes of it, with a NOP in front, and the fifteen bytes overwritten are returned; in front of anything else
      it throws and leaves everything as it is. */
  lemma OtherHooksMoved(p: Process, g: nat, pointer: Word, os: seq<System>)
    requires CanMove(p, g, pointer, os) && !OneByte(p.mem, pointer, JMP)
    ensures var r := MoveHook(p, g, pointer, os);
            if TwoBytes(p.mem, pointer, 0xFF, 0x25) then
              && Mapped(p.mem, pointer, 15) && r.original == Some(Read(p.mem, pointer, 15))
              && r.process.pools == p.pools && r.process.mem.Keys == p.mem.Keys
              && forall x: Word | x in p.mem ::
                   r.process.mem[x] == if x == pointer then 0x90
                                       else if pointer < x < pointer + 15 then p.mem[x - 1] else p.mem[x]
            else r == Moved(p, None)
  {
    if TwoBytes(p.mem, pointer, 0xFF, 0x25) {
      var mem' := ShiftedIndirect(p.mem, pointer);
      assert MoveHook(p, g, pointer, os).process == p.(mem := mem');
      assert mem'.Keys == p.mem.Keys;
      hide ShiftedIndirect, Read;
      forall x: Word | x in p.mem
        ensures mem'[x] == if x == pointer then 0x90 else if pointer < x < pointer + 15 then p.mem[x - 1] else p.mem[x]
      {
        ShiftedByte(p.mem, pointer, x);
      }
    }
  }

  /** An indirect hook that is moved is shifted. */
  lemma IndirectIsShifted(p: Process, g: nat, pointer: Word, d: int, os: seq<System>)
    requires CanMove(p, g, pointer, os) && IndirectHook(p.mem, pointer, d)
    ensures MoveHook(p, g, pointer, os).process.mem == ShiftedIndirect(p.mem, pointer)
  {
    hide ShiftedIndirect, Read, DwordAt, Slot, Signed32, ValidProcess;
  }

  /** Moving an `FF 25` hook keeps its target, in every process and at every site, exactly when the displacement
      is between -6 and 0. The form the patcher itself writes has displacement 0. */
  lemma IndirectMoveKeepsTargetExactlyWhen(g: nat, d: int)
    requires IsGranularity(g) && FitsInt32(d)
    ensures -6 <= d <= 0 <==>
            forall p: Process, pointer: Word, os: seq<System> |
                CanMove(p, g, pointer, os) && IndirectHook(p.mem, pointer, d) ::
              HookKeepsTarget(p.mem, MoveHook(p, g, pointer, os).process.mem, pointer, d)
  {
    if -6 <= d <= 0 {
      hide CanMove, MoveHook, IndirectHook, HookKeepsTarget, ShiftedIndirect;
      forall p: Process, pointer: Word, os: seq<System> |
          CanMove(p, g, pointer, os) && IndirectHook(p.mem, pointer, d)
        ensures HookKeepsTarget(p.mem, MoveHook(p, g, pointer, os).process.mem, pointer, d)
      {
        IndirectIsShifted(p, g, pointer, d, os);
        MoveKeepsInnerTarget(p.mem, pointer, d);
      }
    } else {
      var mem := StrayingHook(d);
      var p := Process(mem, []);
      StrayCanMove(mem, g, d);
      hide CanMove, MoveHook, IndirectHook, HookKeepsTarget, ShiftedIndirect;
      IndirectIsShifted(p, g, SITE, d, []);
    }
  }

  lemma StrayCanMove(mem: Memory, g: nat, d: int)
    requires IsGranularity(g) && IndirectHook(mem, SITE, d)
    ensures CanMove(Process(mem, []), g, SITE, [])
  {
    hide DwordAt, Slot, Signed32;
  }

  lemma StrayByte(d: int, mark: int, k: nat)
    requires FitsInt32(d)
    requires (d > 0 && k == 7 && mark == SITE + 14 + d) || (d < -6 && k == 0 && mark == SITE + 7 + d)
    ensures var mem := Pattern(d, mark);
            Mapped(mem, SITE, 15) && ShiftedIndirect(mem, SITE)[SITE + 7 + d + k] != mem[SITE + 6 + d + k]
  {
    hide ShiftedIndirect, Encode32;
    ShiftedByte(Pattern(d, mark), SITE, SITE + 7 + d + k);
  }

  /** For any other displacement there is a memory in which the moved hook goes astray. */
  lemma StrayingHook(d: int) returns (mem: Memory)
    requires FitsInt32(d) && !(-6 <= d <= 0)
    ensures IndirectHook(mem, SITE, d) && !MoveKeepsTarget(mem, SITE, d)
  {
    hide *;
    var mark := if d > 0 then SITE + 14 + d else SITE + 7 + d;
    var k: nat := if d > 0 then 7 else 0;
    mem := Pattern(d, mark);
    PatternIsHook(d, mark);
    StrayByte(d, mark, k);
    MoveLosesTarget(mem, SITE, d, SITE + 6 + d, SITE + 7 + d, k);
  }
}
