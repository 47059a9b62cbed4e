/** Byte memory and the few x86-64 instructions the code patcher emits: NOP, CALL rel32, JMP rel32,
    JMP [rip+disp32], MOV rax, imm64 and JMP rax, with the semantics of the JMP, CALL, PUSH and MOV
    entries of the Intel Software Developer's Manual, Volume 2. */
module CodeMemory {
  import opened Words

  /** The mapped bytes of the process. */
  type Memory = map<Word, Byte>

  /** Whether `n` bytes from `a` are mapped; an object never wraps around the address space. */
  predicate Mapped(mem: Memory, a: Word, n: nat) {
    a + n <= TWO_64 && forall x: Word | a <= x < a + n :: x in mem
  }

  function Read(mem: Memory, a: Word, n: nat): (s: seq<Byte>)
    requires Mapped(mem, a, n)
    ensures |s| == n
    ensures forall k | 0 <= k < n :: s[k] == mem[a + k]
  {
    seq(n, k requires 0 <= k < n => mem[a + k])
  }

  /** `memmove(a, bytes)`. */
  function Write(mem: Memory, a: Word, bytes: seq<Byte>): (mem': Memory)
    requires Mapped(mem, a, |bytes|)
    ensures mem'.Keys == mem.Keys
    ensures Mapped(mem', a, |bytes|)
    ensures Read(mem', a, |bytes|) == bytes
    ensures forall x | x in mem && !(a <= x < a + |bytes|) :: mem'[x] == mem[x]
    ensures forall k | 0 <= k < |bytes| :: mem'[a + k] == bytes[k]
  {
    map x | x in mem :: if a <= x < a + |bytes| then bytes[x - a] else mem[x]
  }

  /** Two byte ranges have no address in common. */
  predicate Apart(a: nat, n: nat, b: nat, m: nat) {
    a + n <= b || b + m <= a
  }

  lemma ReadApart(mem: Memory, a: Word, bytes: seq<Byte>, b: Word, n: nat)
    requires Mapped(mem, a, |bytes|) && Mapped(mem, b, n) && Apart(a, |bytes|, b, n)
    ensures Mapped(Write(mem, a, bytes), b, n)
    ensures Read(Write(mem, a, bytes), b, n) == Read(mem, b, n)
  {
  }

  /** A longer read splits at any point. */
  lemma ReadSplit(mem: Memory, a: Word, n: nat, from: nat, len: nat)
    requires Mapped(mem, a, n) && from + len <= n && a + from < TWO_64
    ensures Mapped(mem, a + from, len)
    ensures Read(mem, a + from, len) == Read(mem, a, n)[from..from + len]
  {
  }

  /** The registers the emitted instructions touch. */
  datatype Cpu = Cpu(rip: Word, rax: Word, rsp: Word)

  datatype Machine = Machine(cpu: Cpu, mem: Memory)

  datatype Execution = Running(machine: Machine) | Fault

  function DwordAt(mem: Memory, a: Word): int
    requires Mapped(mem, a, 4)
  {
    Decode32(Read(mem, a, 4))
  }

  function QwordAt(mem: Memory, a: Word): Word
    requires Mapped(mem, a, 8)
  {
    Decode64(Read(mem, a, 8))
  }

  predicate Holds(mem: Memory, a: Word, bytes: seq<Byte>) {
    Mapped(mem, a, |bytes|) && Read(mem, a, |bytes|) == bytes
  }

  predicate OneByte(mem: Memory, a: Word, b: Byte) {
    a in mem && mem[a] == b
  }

  predicate TwoBytes(mem: Memory, a: Word, b: Byte, c: Byte) {
    OneByte(mem, a, b) && a + 1 < TWO_64 && OneByte(mem, a + 1, c)
  }

  datatype Instruction =
    | Nop
    | JumpRelative(target: Word)
    | CallRelative(target: Word, back: Word)
    | JumpIndirect(slot: Word)
    | LoadRax(value: Word)
    | JumpRax
    | Illegal

  /** Anything the patcher never emits is illegal here. */
  function Decode(mem: Memory, a: Word): Instruction {
    if OneByte(mem, a, 0x90) then Nop
    else if OneByte(mem, a, 0xE9) && Mapped(mem, a, 5) then JumpRelative(BranchTarget(mem, a))
    else if OneByte(mem, a, 0xE8) && Mapped(mem, a, 5) then CallRelative(BranchTarget(mem, a), Wrap(a + 5))
    else if TwoBytes(mem, a, 0xFF, 0x25) && Mapped(mem, a, 6) then
      JumpIndirect(Wrap(a + 6 + Signed32(DwordAt(mem, a + 2))))
    else if TwoBytes(mem, a, 0x48, 0xB8) && Mapped(mem, a, 10) then LoadRax(QwordAt(mem, a + 2))
    else if TwoBytes(mem, a, 0xFF, 0xE0) then JumpRax
    else Illegal
  }

  function BranchTarget(mem: Memory, a: Word): Word
    requires Mapped(mem, a, 5)
  {
    Wrap(a + 5 + Signed32(DwordAt(mem, a + 1)))
  }

  /** The effect of one instruction; an access to unmapped memory faults. */
  function Execute(m: Machine, i: Instruction): Execution {
    var Machine(cpu, mem) := m;
    match i
    case Nop => Running(Machine(cpu.(rip := Wrap(cpu.rip + 1)), mem))
    case JumpRelative(target) => Running(Machine(cpu.(rip := target), mem))
    case CallRelative(target, back) => CallStep(m, target, back)
    case JumpIndirect(slot) =>
      if Mapped(mem, slot, 8) then Running(Machine(cpu.(rip := QwordAt(mem, slot)), mem)) else Fault
    case LoadRax(value) => Running(Machine(cpu.(rip := Wrap(cpu.rip + 10), rax := value), mem))
    case JumpRax => Running(Machine(cpu.(rip := cpu.rax), mem))
    case Illegal => Fault
  }

  /** Memory after pushing a quadword on a stack whose pointer was `rsp`. */
  function Push(mem: Memory, rsp: Word, value: Word): Memory
    requires Mapped(mem, Wrap(rsp - 8), 8)
  {
    Write(mem, Wrap(rsp - 8), Encode64(value))
  }

  /** Push the return address, then transfer control. */
  function CallStep(m: Machine, target: Word, back: Word): Execution {
    var top := Wrap(m.cpu.rsp - 8);
    if !Mapped(m.mem, top, 8) then Fault
    else Running(Machine(m.cpu.(rip := target, rsp := top), Push(m.mem, m.cpu.rsp, back)))
  }

  function Step(m: Machine): Execution {
    Execute(m, Decode(m.mem, m.cpu.rip))
  }

  function Run(m: Machine, n: nat): Execution
    decreases n
  {
    if n == 0 then Running(m)
    else
      match Step(m)
      case Fault => Fault
      case Running(next) => Run(next, n - 1)
  }
}
