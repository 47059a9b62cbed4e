/** Patches one after another, as src/common/utils/hook.cpp makes them over the life of a process: near jumps
    and calls, plain overwritten bytes such as far jumps, injected operands and NOPs, and moved hooks. */
module ManyPatches {
  import opened Words
  import opened CodeMemory
  import opened NearMemory
  import opened Hook

  datatype Patch =
    | Redirects(opcode: Byte, pointer: Word, data: Word, os: seq<System>)
    | Writes(pointer: Word, bytes: seq<Byte>)
    | Moves(pointer: Word, size: nat, os: seq<System>)

  function Size(patch: Patch): nat {
    match patch
    case Redirects(_, _, _, _) => 5
    case Writes(_, bytes) => |bytes|
    case Moves(_, size, _) => size
  }

  /** A patch can be made now: its site is patchable, a hook to be moved is there, and the systems it meets
      are honest. */
  ghost predicate CanApply(p: Process, g: nat, patch: Patch) {
    && ValidProcess(p, g) && Patchable(p, patch.pointer, Size(patch)) && Size(patch) > 0
    && match patch
       case Redirects(opcode, pointer, _, os) => (opcode == JMP || opcode == CALL) && Honest(p, g, pointer, os)
       case Writes(_, _) => true
       case Moves(pointer, size, os) => HookSize(p.mem, pointer) == size && CanMove(p, g, pointer, os)
  }

  function Apply(p: Process, g: nat, patch: Patch): Patched
    requires CanApply(p, g, patch)
  {
    match patch
    case Redirects(opcode, pointer, data, os) => Redirect(p, g, opcode, pointer, data, os)
    case Writes(pointer, bytes) => Returns(p.(mem := Write(p.mem, pointer, bytes)))
    case Moves(pointer, _, os) =>
      var m := MoveHook(p, g, pointer, os);
      if m.original.Some? then Returns(m.process) else Throws(m.process)
  }

  /** The patches can be made one after another; one that throws does not stop the others. */
  ghost predicate CanApplyAll(p: Process, g: nat, patches: seq<Patch>)
    decreases |patches|
  {
    patches != [] ==> CanApply(p, g, patches[0]) && CanApplyAll(Apply(p, g, patches[0]).process, g, patches[1..])
  }

  ghost function ApplyAll(p: Process, g: nat, patches: seq<Patch>): Process
    requires CanApplyAll(p, g, patches)
    decreases |patches|
  {
    if patches == [] then p else ApplyAll(Apply(p, g, patches[0]).process, g, patches[1..])
  }

  /** A branch that was installed at a site, behind a NOP if it was moved. */
  datatype Branch = Branch(site: Word, nop: bool, opcode: Byte, data: Word, ts: seq<Word>) {
    function At(): nat {
      if nop then site + 1 else site
    }

    function Length(): nat {
      if nop then 6 else 5
    }
  }

  /** The branch that a patch installs: a move of an `E9` hook installs it again, one byte further on. */
  ghost function BranchOf(p: Process, g: nat, patch: Patch): seq<Branch>
    requires CanApply(p, g, patch)
  {
    if Apply(p, g, patch).Throws? then []
    else
      match patch
      case Writes(_, _) => []
      case Redirects(opcode, pointer, data, os) =>
        [Branch(pointer, false, opcode, data, Trampolines(p, g, pointer, data, os))]
      case Moves(pointer, _, os) =>
        if !OneByte(p.mem, pointer, JMP) then []
        else
          var target := FollowBranch(p.mem, pointer).value;
          [Branch(pointer, true, JMP, target, Trampolines(Nopped(p, pointer), g, pointer + 1, target, os))]
  }

  /** The branch that patch `i` of a sequence installs. */
  ghost function BranchAt(p: Process, g: nat, patches: seq<Patch>, i: nat): seq<Branch>
    requires CanApplyAll(p, g, patches) && i < |patches|
    decreases i
  {
    if i == 0 then BranchOf(p, g, patches[0]) else BranchAt(Apply(p, g, patches[0]).process, g, patches[1..], i - 1)
  }

  /** No later patch touches the site of patch `i`. */
  ghost predicate LastAtItsSite(patches: seq<Patch>, i: nat)
    requires i < |patches|
  {
    forall j | i < j < |patches| :: Apart(patches[i].pointer, Size(patches[i]), patches[j].pointer, Size(patches[j]))
  }

  /** A branch stands in `p` as it was installed, on trampolines that were nobody's in `start`. */
  ghost predicate Stands(start: Process, p: Process, b: Branch) {
    && (b.opcode == JMP || (b.opcode == CALL && !b.nop))
    && b.At() < TWO_64 && Patchable(p, b.site, b.Length())
    && (b.nop ==> OneByte(p.mem, b.site, 0x90))
    && (forall t | t in b.ts :: FreshBlock(start, p, t))
    && Installed(p.mem, b.opcode, b.At(), b.data, b.ts)
  }

  ghost predicate ClearOf(b: Branch, a: Word, n: nat) {
    Apart(b.site, b.Length(), a, n) && forall t | t in b.ts :: Apart(t, TRAMPOLINE_SIZE, a, n)
  }

  // ---- One patch changes its site and fresh blocks, and nothing else ----

  /** New mapped bytes, zeros, change no place that was mapped. */
  lemma ExtendedIsLocal(p: Process, p': Process, pointer: Word, size: nat)
    requires Extends(p.mem, p'.mem)
    ensures OnlyPatched(p, p', pointer, size, [])
  {
  }

  lemma NoppedIsLocal(p: Process, p': Process, pointer: Word)
    requires Mapped(p.mem, pointer, 1) && Extends(Nopped(p, pointer).mem, p'.mem)
    ensures OnlyPatched(p, p', pointer, 6, [])
  {
  }

  /** What is patched behind a NOP is patched in the six bytes that start with it. */
  lemma BehindNopIsLocal(p: Process, p': Process, pointer: Word, ts: seq<Word>)
    requires Mapped(p.mem, pointer, 1) && pointer + 1 < TWO_64
    requires OnlyPatched(Nopped(p, pointer), p', pointer + 1, 5, ts)
    ensures OnlyPatched(p, p', pointer, 6, ts)
  {
    var nopped := Nopped(p, pointer);
    forall t | t in ts
      ensures FreshBlock(p, p', t)
    {
      assert FreshBlock(nopped, p', t);
      forall a: Word, n: nat | Patchable(p, a, n) && n > 0
        ensures Apart(a, n, t, TRAMPOLINE_SIZE)
      {
        assert Patchable(nopped, a, n);
      }
    }
    hide Patchable, FreshBlock;
  }

  lemma IndirectMoveIsLocal(p: Process, g: nat, pointer: Word)
    requires ValidProcess(p, g) && Patchable(p, pointer, 15) && Mapped(p.mem, pointer, 15)
    ensures var p' := p.(mem := ShiftedIndirect(p.mem, pointer));
            ValidProcess(p', g) && StillPatchable(p, p') && OnlyPatched(p, p', pointer, 15, [])
  {
  }

  lemma PatchableAgain(p: Process, p': Process)
    requires p'.pools == p.pools && p'.mem.Keys == p.mem.Keys
    ensures StillPatchable(p, p')
  {
  }

  /** What a patch comes to: the site and some fresh blocks change, and the branch it installs stands. */
  ghost predicate PatchRight(p: Process, g: nat, patch: Patch)
    requires CanApply(p, g, patch)
  {
    var p' := Apply(p, g, patch).process;
    && ValidProcess(p', g) && StillPatchable(p, p')
    && (exists ts: seq<Word> :: OnlyPatched(p, p', patch.pointer, Size(patch), ts))
    && (forall b | b in BranchOf(p, g, patch) ::
          b.site == patch.pointer && b.Length() == Size(patch) && Stands(p, p', b))
  }

  lemma RedirectionIsRight(p: Process, g: nat, patch: Patch)
    requires CanApply(p, g, patch) && patch.Redirects?
    ensures PatchRight(p, g, patch)
  {
    var Redirects(opcode, pointer, data, os) := patch;
    RedirectInstalls(p, g, opcode, pointer, data, os);
    var r, ts := Apply(p, g, patch), Trampolines(p, g, pointer, data, os);
    assert BranchOf(p, g, patch) == if r.Throws? then [] else [Branch(pointer, false, opcode, data, ts)];
    assert r == Redirect(p, g, opcode, pointer, data, os);
    hide Apply, BranchOf, Redirect, Trampolines, Patchable, Installed, Extends, ValidProcess, Honest, NoTrampoline,
         IsRelativelyFar, SamePlaces;
    if r.Throws? {
      ExtendedIsLocal(p, r.process, pointer, 5);
    } else {
      hide FreshBlock;
      assert OnlyPatched(p, r.process, pointer, 5, ts);
    }
  }

  lemma WriteIsRight(p: Process, g: nat, patch: Patch)
    requires CanApply(p, g, patch) && patch.Writes?
    ensures PatchRight(p, g, patch)
  {
    DirectPatch(p, g, patch.pointer, patch.bytes);
    hide OnlyPatched, Patchable, ValidProcess, Write, StillPatchable;
  }

  lemma MoveIsRight(p: Process, g: nat, patch: Patch)
    requires CanApply(p, g, patch) && patch.Moves?
    ensures PatchRight(p, g, patch)
  {
    if OneByte(p.mem, patch.pointer, JMP) {
      NearMoveIsRight(p, g, patch);
    } else {
      IndirectMoveIsLocal(p, g, patch.pointer);
      hide ValidProcess, Patchable, StillPatchable, OnlyPatched, ShiftedIndirect, Mapped;
    }
  }

  lemma NearMoveIsRight(p: Process, g: nat, patch: Patch)
    requires CanApply(p, g, patch) && patch.Moves? && OneByte(p.mem, patch.pointer, JMP)
    ensures PatchRight(p, g, patch)
  {
    hide *;
    var pointer := patch.pointer;
    MoveParts(p, g, patch);
    var target := FollowBranch(p.mem, pointer).value;
    NearMoveUnfolds(p, g, patch);
    NoppedProcess(p, g, pointer);
    PatchableAgain(p, Nopped(p, pointer));
    RedirectInstalls(Nopped(p, pointer), g, JMP, pointer + 1, target, patch.os);
    NearMoveStands(p, g, pointer, target, patch.os);
    NearMoveAdds(p, g, patch);
  }

  lemma MoveParts(p: Process, g: nat, patch: Patch)
    requires CanApply(p, g, patch) && patch.Moves? && OneByte(p.mem, patch.pointer, JMP)
    ensures var pointer := patch.pointer;
            && pointer + 1 < 0x1_0000_0000_0000_0000 && pointer + 1 < TWO_64
            && ValidProcess(p, g) && Patchable(p, pointer, 6) && Mapped(p.mem, pointer, 6)
            && Mapped(p.mem, pointer, 1) && Mapped(p.mem, pointer, 5) && Mapped(p.mem, pointer + 1, 5)
            && FollowBranch(p.mem, pointer).Some?
            && ValidProcess(Nopped(p, pointer), g) && Honest(Nopped(p, pointer), g, pointer + 1, patch.os)
            && Nopped(p, pointer).pools == p.pools && Nopped(p, pointer).mem.Keys == p.mem.Keys
  {
    assert CanMove(p, g, patch.pointer, patch.os);
    hide CanApply, ValidProcess, Honest, Patchable, Mapped, FollowBranch, Redirect, MoveHook, CanMove;
    MoveIsRedirect(p, g, patch.pointer, patch.os);
    MovableSite(p, g, patch.pointer);
    hide Movable;
  }

  /** A move of an `E9` hook is a redirection behind a NOP. */
  lemma NearMoveUnfolds(p: Process, g: nat, patch: Patch)
    requires CanApply(p, g, patch) && patch.Moves? && OneByte(p.mem, patch.pointer, JMP)
    requires FollowBranch(p.mem, patch.pointer).Some? && patch.pointer + 1 < 0x1_0000_0000_0000_0000
    requires ValidProcess(Nopped(p, patch.pointer), g)
    requires Honest(Nopped(p, patch.pointer), g, patch.pointer + 1, patch.os)
    requires Mapped(p.mem, patch.pointer + 1, 5) && Mapped(p.mem, patch.pointer, 1) && Mapped(p.mem, patch.pointer, 5)
    ensures patch.size == 6
    ensures var target := FollowBranch(p.mem, patch.pointer).value;
            var r := Redirect(Nopped(p, patch.pointer), g, JMP, patch.pointer + 1, target, patch.os);
            var ts := Trampolines(Nopped(p, patch.pointer), g, patch.pointer + 1, target, patch.os);
            && Apply(p, g, patch).process == r.process
            && BranchOf(p, g, patch) == if r.Throws? then [] else [Branch(patch.pointer, true, JMP, target, ts)]
  {
    MoveIsRedirect(p, g, patch.pointer, patch.os);
    MoveIsApplied(p, g, patch);
    hide *;
    BranchOfMove(p, g, patch);
  }

  lemma MoveIsApplied(p: Process, g: nat, patch: Patch)
    requires CanApply(p, g, patch) && patch.Moves? && OneByte(p.mem, patch.pointer, JMP)
    requires CanMove(p, g, patch.pointer, patch.os)
    ensures patch.size == 6
    ensures var r, m := Apply(p, g, patch), MoveHook(p, g, patch.pointer, patch.os);
            r.process == m.process && (r.Throws? <==> m.original.None?)
  {
    hide MoveHook, CanMove, Patchable, ValidProcess, OneByte;
  }

  lemma BranchOfMove(p: Process, g: nat, patch: Patch)
    requires CanApply(p, g, patch) && patch.Moves? && OneByte(p.mem, patch.pointer, JMP)
    requires FollowBranch(p.mem, patch.pointer).Some? && patch.pointer + 1 < 0x1_0000_0000_0000_0000
    requires Mapped(p.mem, patch.pointer, 1) && Mapped(p.mem, patch.pointer, 5)
    requires ValidProcess(Nopped(p, patch.pointer), g)
    requires Honest(Nopped(p, patch.pointer), g, patch.pointer + 1, patch.os)
    ensures var target := FollowBranch(p.mem, patch.pointer).value;
            var ts := Trampolines(Nopped(p, patch.pointer), g, patch.pointer + 1, target, patch.os);
            BranchOf(p, g, patch) ==
            if Apply(p, g, patch).Throws? then [] else [Branch(patch.pointer, true, JMP, target, ts)]
  {
    hide Apply, Trampolines, ValidProcess, Honest, FollowBranch, OneByte, Mapped, CanApply, Nopped;
  }

  /** The process after a move, and the branch that stands in it. */
  lemma NearMoveStands(p: Process, g: nat, pointer: Word, target: Word, os: seq<System>)
    requires Patchable(p, pointer, 6) && Mapped(p.mem, pointer, 1) && pointer + 1 < TWO_64
    requires ValidProcess(Nopped(p, pointer), g) && Honest(Nopped(p, pointer), g, pointer + 1, os)
    requires StillPatchable(p, Nopped(p, pointer)) && OneByte(Nopped(p, pointer).mem, pointer, 0x90)
    requires Patchable(Nopped(p, pointer), pointer, 1) && Patchable(Nopped(p, pointer), pointer + 1, 5)
    requires RedirectRight(Nopped(p, pointer), g, JMP, pointer + 1, target, os)
    ensures var r := Redirect(Nopped(p, pointer), g, JMP, pointer + 1, target, os);
            var ts := Trampolines(Nopped(p, pointer), g, pointer + 1, target, os);
            && ValidProcess(r.process, g) && StillPatchable(p, r.process)
            && (r.Throws? ==> OnlyPatched(p, r.process, pointer, 6, []))
            && (r.Returns? ==>
                  && OnlyPatched(p, r.process, pointer, 6, ts)
                  && Stands(p, r.process, Branch(pointer, true, JMP, target, ts)))
  {
    var nopped := Nopped(p, pointer);
    var r, ts := Redirect(nopped, g, JMP, pointer + 1, target, os), Trampolines(nopped, g, pointer + 1, target, os);
    hide Redirect, Trampolines, Installed, Extends, ValidProcess, Honest, NoTrampoline, IsRelativelyFar, SamePlaces,
         Nopped, OneByte;
    StillThen(p, nopped, r.process);
    if r.Throws? {
      NoppedIsLocal(p, r.process, pointer);
    } else {
      NopStays(nopped, r.process, pointer, ts);
      BehindNopIsLocal(p, r.process, pointer, ts);
      FreshFromNopped(p, nopped, r.process, ts);
      assert Patchable(r.process, pointer, 6);
      hide Patchable, FreshBlock;
    }
  }

  lemma NearMoveAdds(p: Process, g: nat, patch: Patch)
    requires CanApply(p, g, patch) && patch.Moves? && patch.size == 6
    requires var p' := Apply(p, g, patch).process;
             && ValidProcess(p', g) && StillPatchable(p, p')
             && (exists ts: seq<Word> :: OnlyPatched(p, p', patch.pointer, 6, ts))
    requires forall b | b in BranchOf(p, g, patch) ::
               b.site == patch.pointer && b.nop && Stands(p, Apply(p, g, patch).process, b)
    ensures PatchRight(p, g, patch)
  {
    hide Stands, OnlyPatched, ValidProcess, StillPatchable, Apply, BranchOf, CanApply;
    var ts: seq<Word> :| OnlyPatched(p, Apply(p, g, patch).process, patch.pointer, 6, ts);
    assert OnlyPatched(p, Apply(p, g, patch).process, patch.pointer, Size(patch), ts);
  }

  lemma NopStays(nopped: Process, p': Process, pointer: Word, ts: seq<Word>)
    requires pointer + 1 < TWO_64 && Patchable(nopped, pointer, 1) && OneByte(nopped.mem, pointer, 0x90)
    ensures OnlyPatched(nopped, p', pointer + 1, 5, ts) ==> OneByte(p'.mem, pointer, 0x90)
  {
    if OnlyPatched(nopped, p', pointer + 1, 5, ts) {
      UnpatchedByte(nopped, p', pointer + 1, 5, ts, pointer);
    }
  }

  lemma FreshFromNopped(p: Process, nopped: Process, p': Process, ts: seq<Word>)
    requires StillPatchable(p, nopped) && forall t | t in ts :: FreshBlock(nopped, p', t)
    ensures forall t | t in ts :: FreshBlock(p, p', t)
  {
    hide Patchable;
  }

  lemma PatchIsRight(p: Process, g: nat, patch: Patch)
    requires CanApply(p, g, patch)
    ensures PatchRight(p, g, patch)
  {
    hide PatchRight, CanApply;
    match patch {
      case Redirects(_, _, _, _) => RedirectionIsRight(p, g, patch);
      case Writes(_, _) => WriteIsRight(p, g, patch);
      case Moves(_, _, _) => MoveIsRight(p, g, patch);
    }
  }

  // ---- What a later patch leaves standing ----

  /** Patchable bytes away from a patch keep their values. */
  lemma HoldsStill(p: Process, p': Process, site: Word, size: nat, ts: seq<Word>, a: Word, bytes: seq<Byte>)
    requires OnlyPatched(p, p', site, size, ts) && Patchable(p, a, |bytes|) && bytes != []
    requires Apart(a, |bytes|, site, size) && Holds(p.mem, a, bytes)
    ensures Holds(p'.mem, a, bytes)
  {
    var n := |bytes|;
    forall t | t in ts
      ensures Apart(a, n, t, TRAMPOLINE_SIZE)
    {
      assert FreshBlock(p, p', t);
    }
    SameBytes(p.mem, p'.mem, site, size, ts, a, n);
    hide Patchable, FreshBlocks, SamePlaces;
  }

  lemma SameBytes(mem: Memory, mem': Memory, site: Word, size: nat, ts: seq<Word>, a: Word, n: nat)
    requires SamePlaces(mem, mem', site, size, ts) && Mapped(mem, a, n)
    requires Apart(a, n, site, size) && forall t | t in ts :: Apart(a, n, t, TRAMPOLINE_SIZE)
    ensures Mapped(mem', a, n) && Read(mem', a, n) == Read(mem, a, n)
  {
    forall x: Word | a <= x < a + n
      ensures x in mem' && mem'[x] == mem[x]
    {
      assert forall t | t in ts :: !Within(x, t, TRAMPOLINE_SIZE);
    }
  }

  /** A patch leaves every branch standing that its site is clear of. */
  lemma PatchLeavesStanding(start: Process, p: Process, p': Process, site: Word, size: nat, ts: seq<Word>, b: Branch)
    requires StillPatchable(p, p') && OnlyPatched(p, p', site, size, ts)
    requires Stands(start, p, b) && ClearOf(b, site, size)
    ensures Stands(start, p', b)
  {
    PartsOfSite(p, b, site, size);
    hide OnlyPatched, Patchable, IsRelativelyFar, BranchBytes, FarSafeBytes, Holds, Entry, OneByte;
    HoldsStill(p, p', site, size, ts, b.At(), BranchBytes(b.opcode, b.At(), Entry(b.data, b.ts)));
    if b.nop {
      NopStands(p.mem, p'.mem, b.site);
      HoldsStill(p, p', site, size, ts, b.site, [0x90]);
    }
    forall i | 0 <= i < |b.ts|
      ensures Hop(p'.mem, b.data, b.ts, i)
    {
      assert b.ts[i] in b.ts && Hop(p.mem, b.data, b.ts, i);
      HoldsStill(p, p', site, size, ts, b.ts[i], FarSafeBytes(if i == 0 then b.data else b.ts[i - 1]));
    }
  }

  /** The NOP and the branch behind it are parts of the site. */
  lemma PartsOfSite(p: Process, b: Branch, site: Word, size: nat)
    requires b.At() < TWO_64 && Patchable(p, b.site, b.Length()) && Apart(b.site, b.Length(), site, size)
    ensures Patchable(p, b.At(), 5) && Apart(b.At(), 5, site, size)
    ensures Patchable(p, b.site, 1) && Apart(b.site, 1, site, size)
  {
  }

  lemma NopStands(mem: Memory, mem': Memory, a: Word)
    ensures OneByte(mem, a, 0x90) ==> Holds(mem, a, [0x90])
    ensures Holds(mem', a, [0x90]) ==> OneByte(mem', a, 0x90)
  {
    if Holds(mem', a, [0x90]) {
      assert Read(mem', a, 1)[0] == 0x90;
    }
  }

  /** A branch is clear of any site that was patchable from the start, once their sites are apart. */
  lemma BranchIsClear(start: Process, p: Process, b: Branch, a: Word, n: nat)
    requires Stands(start, p, b) && Patchable(start, a, n) && n > 0 && Apart(b.site, b.Length(), a, n)
    ensures ClearOf(b, a, n)
  {
    hide Patchable, Installed;
    forall t | t in b.ts
      ensures Apart(t, TRAMPOLINE_SIZE, a, n)
    {
      assert FreshBlock(start, p, t);
    }
  }

  /** A branch that stands through all patches whose sites it is clear of. */
  lemma {:induction false} StandsThrough(start: Process, p: Process, g: nat, b: Branch, patches: seq<Patch>)
    requires CanApplyAll(p, g, patches) && Stands(start, p, b)
    requires forall patch | patch in patches :: ClearOf(b, patch.pointer, Size(patch))
    ensures Stands(start, ApplyAll(p, g, patches), b)
    decreases |patches|
  {
    if patches != [] {
      var patch, p' := patches[0], Apply(p, g, patches[0]).process;
      assert patch in patches && forall q | q in patches[1..] :: q in patches;
      PatchIsRight(p, g, patch);
      hide Stands, ClearOf, CanApply, OnlyPatched, StillPatchable, ValidProcess, BranchOf, Apply;
      var ts: seq<Word> :| OnlyPatched(p, p', patch.pointer, Size(patch), ts);
      PatchLeavesStanding(start, p, p', patch.pointer, Size(patch), ts, b);
      StandsThrough(start, p', g, b, patches[1..]);
    }
  }

  ghost predicate SitesOf(start: Process, patches: seq<Patch>) {
    forall patch | patch in patches :: Patchable(start, patch.pointer, Size(patch)) && Size(patch) > 0
  }

  /** What stands on blocks that were nobody's later stands on blocks that were nobody's from the start. */
  lemma StandsFromStart(start: Process, p: Process, p': Process, b: Branch)
    requires StillPatchable(start, p) && Stands(p, p', b)
    ensures Stands(start, p', b)
  {
    hide Patchable, Installed;
    forall t | t in b.ts
      ensures FreshBlock(start, p', t)
    {
      assert FreshBlock(p, p', t);
    }
  }

  /** A branch that no later patch touches. */
  lemma RestIsClear(start: Process, p: Process, b: Branch, patches: seq<Patch>)
    requires Stands(start, p, b) && SitesOf(start, patches) && patches != [] && LastAtItsSite(patches, 0)
    requires b.site == patches[0].pointer && b.Length() == Size(patches[0])
    ensures forall q | q in patches[1..] :: ClearOf(b, q.pointer, Size(q))
  {
    hide Stands, ClearOf, Patchable, Size, Apart;
    forall q | q in patches[1..]
      ensures ClearOf(b, q.pointer, Size(q))
    {
      var j :| 1 <= j < |patches| && patches[j] == q;
      BranchIsClear(start, p, b, q.pointer, Size(q));
    }
  }

  lemma {:induction false} BranchStandsToTheEnd(start: Process, p: Process, g: nat, patches: seq<Patch>, i: nat,
                                               b: Branch)
    requires StillPatchable(start, p) && CanApplyAll(p, g, patches) && SitesOf(start, patches)
    requires i < |patches| && LastAtItsSite(patches, i) && b in BranchAt(p, g, patches, i)
    ensures Stands(start, ApplyAll(p, g, patches), b)
    decreases i
  {
    var patch, p', rest := patches[0], Apply(p, g, patches[0]).process, patches[1..];
    assert patch in patches && forall q | q in rest :: q in patches;
    PatchIsRight(p, g, patch);
    StillThen(start, p, p');
    hide Stands, ClearOf, CanApply, OnlyPatched, StillPatchable, ValidProcess, BranchOf, Apply, Patchable;
    if i == 0 {
      StandsFromStart(start, p, p', b);
      RestIsClear(start, p', b, patches);
      StandsThrough(start, p', g, b, rest);
    } else {
      LaterInRest(patches, i);
      BranchStandsToTheEnd(start, p', g, rest, i - 1, b);
    }
  }

  lemma StillThen(start: Process, p: Process, p': Process)
    requires StillPatchable(start, p) && StillPatchable(p, p')
    ensures StillPatchable(start, p')
  {
    hide Patchable;
  }

  lemma LaterInRest(patches: seq<Patch>, i: nat)
    requires 0 < i < |patches| && LastAtItsSite(patches, i)
    ensures LastAtItsSite(patches[1..], i - 1)
  {
    forall j | i - 1 < j < |patches| - 1
      ensures patches[1..][j] == patches[j + 1]
    {
    }
  }

  /** What a branch that stands does when it is run. */
  ghost predicate LeadsOn(start: Process, mem: Memory, b: Branch) {
    && (b.opcode == JMP ==> JumpsTo(mem, b.site, b.data, |b.ts| + if b.nop then 2 else 1))
    && (b.opcode == CALL ==> Calls(start, mem, b.site, b.data, |b.ts| + 1))
  }

  lemma StandingLeadsOn(start: Process, p: Process, b: Branch)
    requires Stands(start, p, b)
    ensures LeadsOn(start, p.mem, b)
  {
    hide Patchable, Installed, JumpsTo, Calls, FreshBlock;
    if b.opcode == JMP {
      InstalledJumps(p.mem, b.At(), b.data, b.ts);
      if b.nop {
        assert Wrap(b.site + 1) == b.At();
        NopThenJump(p.mem, b.site, b.data, |b.ts| + 1);
      }
    } else {
      InstalledIsCall(start, p, b.site, b.data, b.ts);
    }
  }

  /** Over any sequence of patches, some of which may throw, at sites that may be patched again and again: the
      last patch at a site decides. When all are done, a jump, call or moved hook whose site no later patch
      touched leads where it was meant to, whatever happened elsewhere. */
  lemma LastPatchDecides(p: Process, g: nat, patches: seq<Patch>, i: nat)
    requires CanApplyAll(p, g, patches) && SitesOf(p, patches)
    requires i < |patches| && LastAtItsSite(patches, i)
    ensures forall b | b in BranchAt(p, g, patches, i) :: LeadsOn(p, ApplyAll(p, g, patches).mem, b)
  {
    assert StillPatchable(p, p);
    hide CanApplyAll, ApplyAll, BranchAt, StillPatchable, SitesOf, LastAtItsSite, Stands, LeadsOn;
    forall b | b in BranchAt(p, g, patches, i)
      ensures LeadsOn(p, ApplyAll(p, g, patches).mem, b)
    {
      BranchStandsToTheEnd(p, p, g, patches, i, b);
      StandingLeadsOn(p, ApplyAll(p, g, patches), b);
    }
  }

  ghost predicate SitesApart(patches: seq<Patch>) {
    forall i, j | 0 <= i < j < |patches| ::
      Apart(patches[i].pointer, Size(patches[i]), patches[j].pointer, Size(patches[j]))
  }

  /** In particular, patches at sites apart from each other leave each other alone. */
  lemma PatchesLeaveEachOtherAlone(p: Process, g: nat, patches: seq<Patch>)
    requires CanApplyAll(p, g, patches) && SitesOf(p, patches) && SitesApart(patches)
    ensures forall i: nat | i < |patches| ::
              forall b | b in BranchAt(p, g, patches, i) :: LeadsOn(p, ApplyAll(p, g, patches).mem, b)
  {
    hide CanApplyAll, ApplyAll, BranchAt, SitesOf, LeadsOn;
    forall i: nat | i < |patches|
      ensures forall b | b in BranchAt(p, g, patches, i) :: LeadsOn(p, ApplyAll(p, g, patches).mem, b)
    {
      LastPatchDecides(p, g, patches, i);
    }
  }
}
