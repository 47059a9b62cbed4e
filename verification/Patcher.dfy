/** The patcher at work: the functions of src/common/utils/hook.cpp as methods that overwrite mapped bytes
    and bump the static trampoline pool in place. Every method is tied to its meaning in module Hook; a
    false result is a thrown exception. */
module Patcher {
  import opened Options
  import opened Words
  import opened CodeMemory
  import opened NearMemory
  import H = Hook

  class CodePatcher {
    var mem: Memory
    var pools: seq<Region>
    const granularity: nat

    constructor (mem: Memory, granularity: nat)
      requires IsGranularity(granularity)
      ensures Valid() && this.mem == mem && pools == [] && this.granularity == granularity
    {
      this.mem, this.pools, this.granularity := mem, [], granularity;
    }

    ghost function State(): H.Process
      reads this
    {
      H.Process(mem, pools)
    }

    ghost predicate Valid()
      reads this
    {
      H.ValidProcess(State(), granularity)
    }

    /** `copy`. */
    method Copy(place: Word, data: seq<Byte>)
      requires Mapped(mem, place, |data|)
      modifies this`mem
      ensures mem == Write(old(mem), place, data)
    {
      mem := Write(mem, place, data);
    }

    /** `nop` on one byte, as the hook shift uses it. */
    method NopByte(place: Word)
      requires Mapped(mem, place, 1)
      modifies this`mem
      ensures mem == H.Nop(old(mem), place)
    {
      Copy(place, [0x90]);
    }

    /** `get_memory_near`: the first pool entry in range with room, or a new region when there is none. */
    method MemoryNear(address: Word, size: nat, s: System) returns (grant: Grant)
      requires Valid() && H.FreeGrants(State(), granularity, s.Offered()) && 0 < size <= granularity
      modifies this
      ensures (grant, State()) == H.Reserve(old(State()), granularity, address, size, s)
      ensures Valid() && ServedRight(old(pools), granularity, address, size, s, grant, pools)
      ensures |pools| == |old(pools)| ==> mem == old(mem)
    {
      ghost var (granted, p') := H.Reserve(State(), granularity, address, size, s);
      H.ReserveIsFresh(State(), granularity, address, size, s);
      RightParts(State(), granularity, address, size, s, granted, p');
      hide NearestGrant, IsRelativelyFar, FirstFit, GetMemoryNear, ServedRight, Serves;
      hide H.ReservationRight, H.Reserve, H.ValidProcess, H.FreeGrants, H.Commit;
      var i := FirstServing(address, size);
      if i < |pools| {
        TakenReservation(State(), granularity, address, size, s);
        grant := Block(pools[i].GetPtr());
        pools := pools[i := pools[i].(offset := pools[i].offset + size)];
      } else {
        grant := MemoryFromNewRegion(address, size, s);
      }
    }

    /** The loop of `get_memory_near`, up to the region that serves the request. */
    method FirstServing(address: Word, size: nat) returns (i: nat)
      ensures i == FirstFit(pools, address, size)
    {
      hide IsRelativelyFar;
      i := 0;
      while i < |pools|
        invariant 0 <= i <= |pools|
        invariant forall j | 0 <= j < i :: !Serves(pools[j], address, size)
      {
        if !IsRelativelyFar(address, pools[i].GetPtr(), 5) {
          if pools[i].offset + size <= pools[i].length {
            break;
          }
        }
        i := i + 1;
      }
      FirstFitIs(pools, address, size, i);
    }

    /** The last two steps of `get_memory_near`: another region, and its first bytes. */
    method MemoryFromNewRegion(address: Word, size: nat, s: System) returns (grant: Grant)
      requires Valid() && H.FreeGrants(State(), granularity, s.Offered()) && 0 < size <= granularity
      requires FirstFit(pools, address, size) == |pools|
      modifies this
      ensures (grant, State()) == H.Reserve(old(State()), granularity, address, size, s)
    {
      NewReservation(State(), granularity, address, size, s);
      hide NearestGrant, FirstFit, H.Reserve, H.ValidProcess, H.FreeGrants, H.Commit;
      var buffer := AllocateSomewhereNear(address, granularity, s);
      match buffer
      case None =>
        grant := OutOfReach;
      case Some(b) =>
        mem := H.Commit(mem, b, granularity);
        pools := pools + [Region(b, granularity, size)];
        grant := Block(b);
    }

    /** `jump`. Out of range it goes through a trampoline; the jump to that is the same method again, which
        meets the system as it is then. */
    method Jump(pointer: Word, data: Word, useFar: bool, useSafe: bool, os: seq<System>) returns (ok: bool)
      requires Valid() && H.Honest(State(), granularity, pointer, os)
      requires H.Patchable(State(), pointer, H.PatchSize(useFar, useSafe))
      modifies this
      ensures Valid()
      ensures H.Jump(old(State()), granularity, pointer, data, useFar, useSafe, os) ==
              if ok then H.Returns(State()) else H.Throws(State())
      decreases |os|, if !useFar && IsRelativelyFar(pointer, data, 5) then 1 else 0
    {
      ghost var before := State();
      H.JumpReachesTarget(before, granularity, pointer, data, useFar, useSafe, os);
      if !useFar && IsRelativelyFar(pointer, data, 5) {
        H.NextReservation(before, granularity, pointer, os);
        var trampoline := MemoryNear(pointer, H.TRAMPOLINE_SIZE, H.Now(os));
        if !trampoline.Block? {
          return false;
        }
        TrampolineReady(before, State(), granularity, H.JMP, pointer, trampoline.at, H.Later(os));
        ok := Jump(pointer, trampoline.at, false, false, H.Later(os));
        if !ok {
          return;
        }
        ok := Jump(trampoline.at, data, true, true, []);
        return;
      }
      if useFar {
        if useSafe {
          Copy(pointer, H.FarSafeBytes(data));
        } else {
          Copy(pointer, H.FarBytes(data));
        }
      } else {
        Copy(pointer, H.BranchBytes(H.JMP, pointer, data));
      }
      return true;
    }

    /** `call`. */
    method Call(pointer: Word, data: Word, os: seq<System>) returns (ok: bool)
      requires Valid() && H.Honest(State(), granularity, pointer, os) && H.Patchable(State(), pointer, 5)
      modifies this
      ensures Valid()
      ensures H.Call(old(State()), granularity, pointer, data, os) ==
              if ok then H.Returns(State()) else H.Throws(State())
      decreases |os|, if IsRelativelyFar(pointer, data, 5) then 1 else 0
    {
      ghost var before := State();
      H.CallReachesTarget(before, granularity, pointer, data, os);
      if IsRelativelyFar(pointer, data, 5) {
        H.NextReservation(before, granularity, pointer, os);
        var trampoline := MemoryNear(pointer, H.TRAMPOLINE_SIZE, H.Now(os));
        if !trampoline.Block? {
          return false;
        }
        TrampolineReady(before, State(), granularity, H.CALL, pointer, trampoline.at, H.Later(os));
        ok := Call(pointer, trampoline.at, H.Later(os));
        if !ok {
          return;
        }
        ok := Jump(trampoline.at, data, true, true, []);
        return;
      }
      Copy(pointer, H.BranchBytes(H.CALL, pointer, data));
      return true;
    }

    /** `inject`. */
    method Inject(pointer: Word, data: Word) returns (ok: bool)
      requires Mapped(mem, pointer, 4)
      modifies this`mem
      ensures ok == H.Inject(old(mem), pointer, data).Some?
      ensures mem == H.Inject(old(mem), pointer, data).GetOr(old(mem))
      ensures ok ==> H.Extract(mem, pointer) == data && H.SameBytesBut(old(mem), mem, pointer, 4)
    {
      H.ExtractUndoesInject(mem, pointer, data);
      hide H.Extract;
      if IsRelativelyFar(pointer, data, 4) {
        return false;
      }
      Copy(pointer, Encode32(Displacement(pointer, data, 4)));
      return true;
    }

    /** `move_hook`: the overwritten bytes, or None when it throws. */
    method MoveHook(pointer: Word, os: seq<System>) returns (original: Option<seq<Byte>>)
      requires H.CanMove(State(), granularity, pointer, os)
      modifies this
      ensures H.MoveHook(old(State()), granularity, pointer, os) == H.Moved(State(), original)
    {
      if OneByte(mem, pointer, H.JMP) {
        original := MoveRelative(pointer, os);
      } else if TwoBytes(mem, pointer, 0xFF, 0x25) {
        original := MoveIndirect(pointer);
      } else {
        original := None;
      }
    }

    /** The `E9` branch of `move_hook`. */
    method MoveRelative(pointer: Word, os: seq<System>) returns (original: Option<seq<Byte>>)
      requires H.CanMove(State(), granularity, pointer, os) && OneByte(mem, pointer, H.JMP)
      modifies this
      ensures H.MoveHook(old(State()), granularity, pointer, os) == H.Moved(State(), original)
    {
      H.MovableSite(State(), granularity, pointer);
      H.NoppedProcess(State(), granularity, pointer);
      H.BranchBeforeMove(mem, pointer);
      hide IsRelativelyFar, H.FollowBranch, H.Redirect, H.Nop, H.ValidProcess, H.Honest, H.Patchable, Read, Mapped;
      var bytes := Read(mem, pointer, 6);
      var target := H.FollowBranch(mem, pointer);
      NopByte(pointer);
      var ok := Jump(pointer + 1, target.value, false, false, os);
      original := if ok then Some(bytes) else None;
    }

    /** The `FF 25` branch of `move_hook`. */
    method MoveIndirect(pointer: Word) returns (original: Option<seq<Byte>>)
      requires Mapped(mem, pointer, 15)
      modifies this`mem
      ensures original == Some(Read(old(mem), pointer, 15)) && mem == H.ShiftedIndirect(old(mem), pointer)
    {
      hide *;
      IndirectParts(mem, pointer);
      original := Some(Read(mem, pointer, 15));
      Copy(pointer + 1, Read(mem, pointer, 14));
      NopByte(pointer);
    }

    /** `un_move`. */
    method UnMove(pointer: Word, original: seq<Byte>)
      requires Mapped(mem, pointer, |original|)
      modifies this`mem
      ensures mem == H.UnMove(old(mem), pointer, original)
    {
      if original != [] {
        Copy(pointer, original);
      }
    }
  }

  lemma RightParts(p: H.Process, g: nat, address: Word, size: nat, s: System, grant: Grant, p': H.Process)
    requires IsGranularity(g) && H.ReservationRight(p, g, address, size, s, grant, p')
    ensures H.ValidProcess(p', g) && ServedRight(p.pools, g, address, size, s, grant, p'.pools)
    ensures |p'.pools| == |p.pools| ==> p'.mem == p.mem
  {
    hide ServedRight;
  }

  /** A reservation served from the pool. */
  lemma TakenReservation(p: H.Process, g: nat, address: Word, size: nat, s: System)
    requires H.ValidProcess(p, g) && H.FreeGrants(p, g, s.Offered())
    requires FirstFit(p.pools, address, size) < |p.pools|
    ensures var i := FirstFit(p.pools, address, size);
            H.Reserve(p, g, address, size, s) ==
            (Block(p.pools[i].GetPtr()), p.(pools := p.pools[i := p.pools[i].(offset := p.pools[i].offset + size)]))
  {
    hide H.ValidProcess, H.FreeGrants, FirstFit, NearestGrant;
  }

  /** A reservation for which the system is asked. */
  lemma NewReservation(p: H.Process, g: nat, address: Word, size: nat, s: System)
    requires H.ValidProcess(p, g) && H.FreeGrants(p, g, s.Offered()) && size <= g
    requires FirstFit(p.pools, address, size) == |p.pools|
    ensures match NearestGrant(address, g, s)
            case None => H.Reserve(p, g, address, size, s) == (OutOfReach, p)
            case Some(b) =>
              && b in s.Offered() && b + g <= TWO_64
              && H.Reserve(p, g, address, size, s) ==
                 (Block(b), H.Process(H.Commit(p.mem, b, g), p.pools + [Region(b, g, size)]))
  {
    GrantIsReachableExactlyWhen(address, g, s);
    hide H.ValidProcess, FirstFit, NearestGrant, Strays;
  }

  /** With the trampoline reserved, both the site and the trampoline can be patched, one after the other. */
  lemma TrampolineReady(p: H.Process, p1: H.Process, g: nat, opcode: Byte, pointer: Word, t: Word, later: seq<System>)
    requires H.ReservedFor(p, p1, t, H.TRAMPOLINE_SIZE) && H.Patchable(p, pointer, 5)
    requires H.ValidProcess(p1, g) && H.Honest(p1, g, pointer, later)
    ensures H.Patchable(p1, pointer, 5) && Mapped(p1.mem, pointer, 5)
    ensures var q := H.Redirect(p1, g, opcode, pointer, t, later).process;
            H.ValidProcess(q, g) && H.Patchable(q, t, H.TRAMPOLINE_SIZE) && Mapped(q.mem, t, H.TRAMPOLINE_SIZE)
  {
    assert H.Patchable(p1, pointer, 5);
    H.RedirectInstalls(p1, g, opcode, pointer, t, later);
    hide H.Redirect, H.Honest, H.ValidProcess, H.OnlyPatched, H.Installed, H.Extends, H.NoTrampoline, H.Trampolines;
  }

  lemma IndirectParts(mem: Memory, pointer: Word)
    requires Mapped(mem, pointer, 15)
    ensures pointer + 1 < 0x1_0000_0000_0000_0000 && Mapped(mem, pointer, 14) && Mapped(mem, pointer + 1, 14)
    ensures var moved := Write(mem, pointer + 1, Read(mem, pointer, 14));
            Mapped(moved, pointer, 1) && H.ShiftedIndirect(mem, pointer) == H.Nop(moved, pointer)
  {
    hide H.Nop;
  }

  lemma {:induction false} FirstFitIs(pools: seq<Region>, address: Word, size: nat, i: nat)
    requires i <= |pools|
    requires forall j | 0 <= j < i :: !Serves(pools[j], address, size)
    requires i < |pools| ==> Serves(pools[i], address, size)
    ensures FirstFit(pools, address, size) == i
  {
  }
}
