/** The register-saving and stack-aligning code sequences of src/common/utils/hook.cpp, run on a machine
    with sixteen registers, a flags word and a stack of quadword cells. Instruction semantics follow the
    PUSH, POP, PUSHF, POPF, SUB, ADD, TEST, LEA, MOV, Jcc, JMP and CALL entries of the Intel Software
    Developer's Manual, Volume 2: PUSH RSP stores the old value, POP RSP keeps the loaded one. */
module StackFrame {
  import opened Words

  datatype Reg = Rax | Rcx | Rdx | Rbx | Rsp | Rbp | Rsi | Rdi | R8 | R9 | R10 | R11 | R12 | R13 | R14 | R15

  datatype Instr =
    | Push(r: Reg)
    | Pop(r: Reg)
    | PushFlags
    | PopFlags
    | Sub(r: Reg, n: Word)
    | Add(r: Reg, n: Word)
    | TestLowNibble(r: Reg)
    | Lea(r: Reg, base: Reg, disp: Word)
    | Load(r: Reg, base: Reg, disp: Word)
    | Store(base: Reg, disp: Word, r: Reg)
    | JumpNotZero(l: nat)
    | Jump(l: nat)
    | Call

  /** `mem` holds the mapped quadword cells; only addresses that are multiples of eight name a cell. */
  datatype Machine = Machine(regs: map<Reg, Word>, flags: Word, mem: map<Word, Word>, pc: nat)

  datatype Outcome = Running(m: Machine) | Fault

  /** Assembled code with its bound labels. */
  datatype Program = Program(code: seq<Instr>, labels: map<nat, nat>)

  /** What the code runs on: how arithmetic sets the flags, and the function it calls, from its entry (return
      address on top of the stack) to right after its return. */
  datatype World = World(flagsOf: Word -> Word, back: Word, callee: Machine -> Machine)

  predicate ZeroFlag(flags: Word) {
    (flags / 64) % 2 == 1
  }

  ghost predicate HonestFlags(w: World) {
    forall v: Word :: ZeroFlag(w.flagsOf(v)) <==> v == 0
  }

  predicate AllRegs(regs: map<Reg, Word>) {
    forall r: Reg :: r in regs
  }

  predicate Cell(mem: map<Word, Word>, a: Word) {
    a % 8 == 0 && a in mem
  }

  /** An instruction that does not transfer control; the program counter is left to `Step`. */
  function Plain(w: World, i: Instr, m: Machine): Outcome
    requires AllRegs(m.regs)
  {
    var rsp: int := m.regs[Rsp];
    match i
    case Push(r) => PushValue(m, m.regs[r])
    case PushFlags => PushValue(m, m.flags)
    case Pop(r) =>
      if !Cell(m.mem, rsp) then Fault
      else Running(m.(regs := m.regs[Rsp := Wrap(rsp + 8)][r := m.mem[rsp]]))
    case PopFlags =>
      if !Cell(m.mem, rsp) then Fault
      else Running(m.(regs := m.regs[Rsp := Wrap(rsp + 8)], flags := m.mem[rsp]))
    case Sub(r, n) => Arithmetic(w, m, r, Wrap(m.regs[r] - n))
    case Add(r, n) => Arithmetic(w, m, r, Wrap(m.regs[r] + n))
    case TestLowNibble(r) => Running(m.(flags := w.flagsOf(m.regs[r] % 16)))
    case Lea(r, base, disp) => Running(m.(regs := m.regs[r := Wrap(m.regs[base] + disp)]))
    case Load(r, base, disp) =>
      var a := Wrap(m.regs[base] + disp);
      if !Cell(m.mem, a) then Fault else Running(m.(regs := m.regs[r := m.mem[a]]))
    case Store(base, disp, r) =>
      var a := Wrap(m.regs[base] + disp);
      if !Cell(m.mem, a) then Fault else Running(m.(mem := m.mem[a := m.regs[r]]))
    case _ => Fault
  }

  function PushValue(m: Machine, v: Word): Outcome
    requires AllRegs(m.regs)
  {
    var rsp: int := m.regs[Rsp];
    var top := Wrap(rsp - 8);
    if !Cell(m.mem, top) then Fault
    else Running(m.(regs := m.regs[Rsp := top], mem := m.mem[top := v]))
  }

  function Arithmetic(w: World, m: Machine, r: Reg, v: Word): Outcome {
    Running(m.(regs := m.regs[r := v], flags := w.flagsOf(v)))
  }

  predicate IsPlain(i: Instr) {
    !i.JumpNotZero? && !i.Jump? && !i.Call?
  }

  function Step(p: Program, w: World, m: Machine): Outcome {
    if m.pc >= |p.code| || !AllRegs(m.regs) then Fault
    else
      match p.code[m.pc]
      case Jump(l) => if l in p.labels then Running(m.(pc := p.labels[l])) else Fault
      case JumpNotZero(l) =>
        if ZeroFlag(m.flags) then Running(m.(pc := m.pc + 1))
        else if l in p.labels then Running(m.(pc := p.labels[l]))
        else Fault
      case Call =>
        (match PushValue(m, w.back)
         case Fault => Fault
         case Running(entry) => Running(w.callee(entry).(pc := m.pc + 1)))
      case i =>
        (match Plain(w, i, m)
         case Fault => Fault
         case Running(m') => Running(m'.(pc := m.pc + 1)))
  }

  function Run(p: Program, w: World, m: Machine, n: nat): Outcome
    decreases n
  {
    if n == 0 then Running(m)
    else
      match Step(p, w, m)
      case Fault => Fault
      case Running(m') => Run(p, w, m', n - 1)
  }

  ghost predicate Reaches(p: Program, w: World, m: Machine, m': Machine) {
    exists n: nat :: Run(p, w, m, n) == Running(m')
  }

  lemma ReachesSelf(p: Program, w: World, m: Machine)
    ensures Reaches(p, w, m, m)
  {
    assert Run(p, w, m, 0) == Running(m);
  }

  lemma ReachesStep(p: Program, w: World, m: Machine, mid: Machine, m': Machine)
    requires Step(p, w, m) == Running(mid) && Reaches(p, w, mid, m')
    ensures Reaches(p, w, m, m')
  {
    var n: nat :| Run(p, w, mid, n) == Running(m');
    assert Run(p, w, m, n + 1) == Running(m');
  }

  lemma {:induction false} RunThen(p: Program, w: World, m: Machine, i: nat, mid: Machine, j: nat)
    requires Run(p, w, m, i) == Running(mid)
    ensures Run(p, w, m, i + j) == Run(p, w, mid, j)
    decreases i
  {
    if i > 0 {
      RunThen(p, w, Step(p, w, m).m, i - 1, mid, j);
    }
  }

  lemma ReachesTrans(p: Program, w: World, m: Machine, mid: Machine, m': Machine)
    requires Reaches(p, w, m, mid) && Reaches(p, w, mid, m')
    ensures Reaches(p, w, m, m')
  {
    var i: nat :| Run(p, w, m, i) == Running(mid);
    var j: nat :| Run(p, w, mid, j) == Running(m');
    RunThen(p, w, m, i, mid, j);
  }

  /** A straight line of plain instructions. */
  function ExecAll(w: World, list: seq<Instr>, m: Machine): Outcome {
    if list == [] then Running(m)
    else if !AllRegs(m.regs) then Fault
    else
      match Plain(w, list[0], m)
      case Fault => Fault
      case Running(m') => ExecAll(w, list[1..], m')
  }

  predicate CodeAt(p: Program, pc: nat, list: seq<Instr>) {
    pc + |list| <= |p.code| && p.code[pc..pc + |list|] == list
  }

  /** Running a straight line inside a program is executing its instructions in order. */
  lemma {:induction false} StraightLine(p: Program, w: World, list: seq<Instr>, m: Machine)
    requires CodeAt(p, m.pc, list) && forall i | i in list :: IsPlain(i)
    requires ExecAll(w, list, m).Running?
    ensures Reaches(p, w, m, ExecAll(w, list, m).m.(pc := m.pc + |list|))
    decreases |list|
  {
    if list == [] {
      ReachesSelf(p, w, m);
    } else {
      var tail := list[1..];
      var mid := Plain(w, list[0], m).m;
      var next := mid.(pc := m.pc + 1);
      assert p.code[m.pc] == list[0];
      assert p.code[next.pc..next.pc + |tail|] == tail;
      PlainKeepsPc(w, list[0], m);
      ExecAllPc(w, tail, mid, m.pc + 1);
      StraightLine(p, w, tail, next);
      ReachesStep(p, w, m, next, ExecAll(w, list, m).m.(pc := m.pc + |list|));
    }
  }

  lemma PlainKeepsPc(w: World, i: Instr, m: Machine)
    requires AllRegs(m.regs) && Plain(w, i, m).Running?
    ensures Plain(w, i, m).m.pc == m.pc
    ensures forall pc: nat :: Plain(w, i, m.(pc := pc)) == Running(Plain(w, i, m).m.(pc := pc))
  {
  }

  /** Straight-line execution does not look at the program counter. */
  lemma {:induction false} ExecAllPc(w: World, list: seq<Instr>, m: Machine, pc: nat)
    requires ExecAll(w, list, m).Running?
    ensures ExecAll(w, list, m.(pc := pc)) == Running(ExecAll(w, list, m).m.(pc := pc))
    decreases |list|
  {
    if list != [] {
      PlainKeepsPc(w, list[0], m);
      ExecAllPc(w, list[1..], Plain(w, list[0], m).m, pc);
    }
  }

  lemma {:induction false} ExecAllConcat(w: World, a: seq<Instr>, b: seq<Instr>, m: Machine)
    requires ExecAll(w, a, m).Running?
    ensures ExecAll(w, a + b, m) == ExecAll(w, b, ExecAll(w, a, m).m)
    decreases |a|
  {
    if a == [] {
      assert a + b == b;
    } else {
      assert (a + b)[1..] == a[1..] + b;
      ExecAllConcat(w, a[1..], b, Plain(w, a[0], m).m);
    }
  }

  // ---- The stack below an interrupted stack pointer ----

  /** The k-th quadword below `base`. */
  function Slot(base: Word, k: nat): Word {
    Wrap(base - 8 * k)
  }

  lemma WrapMod16(x: int, q: int)
    requires q == x / TWO_64
    ensures Wrap(x) % 16 == x % 16
  {
    var k := q * 0x1000_0000_0000_0000;
    WrapQuotient(x, q, k);
    SameRemainder(x, Wrap(x), k);
  }

  lemma WrapQuotient(x: int, q: int, k: int)
    requires q == x / TWO_64 && k == q * 0x1000_0000_0000_0000
    ensures x == Wrap(x) + 16 * k
  {
  }

  lemma SameRemainder(x: int, y: int, k: int)
    requires x == y + 16 * k
    ensures x % 16 == y % 16
  {
  }

  lemma SlotFacts(base: Word, k: nat)
    requires base % 8 == 0
    ensures Slot(base, k) % 8 == 0
    ensures Wrap(Slot(base, k) - 8) == Slot(base, k + 1)
    ensures k > 0 ==> Wrap(Slot(base, k) + 8) == Slot(base, k - 1)
  {
    WrapPlus(base - 8 * k, -8);
    WrapPlus(base - 8 * k, 8);
    WrapMod16(base - 8 * k, (base - 8 * k) / TWO_64);
    EightDividesWhen(base, k, Wrap(base - 8 * k));
    hide Wrap;
  }

  lemma EightDividesWhen(base: Word, k: nat, w: Word)
    requires base % 8 == 0 && w % 16 == (base - 8 * k) % 16
    ensures w % 8 == 0
  {
    var half, x := base / 8 - k, base - 8 * k;
    assert x == 8 * half;
    EightTimes(half, x);
    EvenOrOdd(w);
  }

  lemma EightTimes(half: int, x: int)
    requires x == 8 * half
    ensures x % 16 == 0 || x % 16 == 8
  {
    var q, r := half / 2, half % 2;
    Remainder16(x, q, 8 * r);
  }

  lemma Remainder16(x: int, q: int, r: int)
    requires x == 16 * q + r && 0 <= r < 16
    ensures x % 16 == r
  {
  }

  lemma EvenOrOdd(w: int)
    ensures w % 16 == 0 || w % 16 == 8 ==> w % 8 == 0
  {
  }

  const DEPTH: nat := 64

  lemma SlotsDiffer(base: Word, i: nat, j: nat)
    requires i < DEPTH && j < DEPTH && i != j
    ensures Slot(base, i) != Slot(base, j)
  {
  }

  /** The first `n` quadwords below `base` are mapped. */
  ghost predicate Room(mem: map<Word, Word>, base: Word, n: nat) {
    forall k: nat | 1 <= k <= n :: Slot(base, k) in mem
  }

  /** The stack pointer is `|saved|` quadwords below `base`, and these hold `saved`, top of the frame first. */
  ghost predicate Frame(m: Machine, base: Word, saved: seq<Word>) {
    && AllRegs(m.regs)
    && base % 8 == 0
    && |saved| < DEPTH
    && Room(m.mem, base, DEPTH - 1)
    && m.regs[Rsp] == Slot(base, |saved|)
    && forall k: nat | 1 <= k <= |saved| :: m.mem[Slot(base, k)] == saved[k - 1]
  }

  /** No address is mapped anew or unmapped, and only the `DEPTH` quadwords below `base` may hold new values. */
  ghost predicate Untouched(mem: map<Word, Word>, mem': map<Word, Word>, base: Word) {
    && mem.Keys == mem'.Keys
    && forall x: Word | x in mem && Wrap((x as int) - base) < TWO_64 - 8 * DEPTH :: mem'[x] == mem[x]
  }

  lemma UntouchedTrans(a: map<Word, Word>, b: map<Word, Word>, c: map<Word, Word>, base: Word)
    requires Untouched(a, b, base) && Untouched(b, c, base)
    ensures Untouched(a, c, base)
  {
    hide Wrap;
  }

  lemma UntouchedSelf(mem: map<Word, Word>, base: Word)
    ensures Untouched(mem, mem, base)
  {
  }

  lemma UntouchedSlot(mem: map<Word, Word>, base: Word, k: nat, v: Word)
    requires 1 <= k < DEPTH && Slot(base, k) in mem
    ensures Untouched(mem, mem[Slot(base, k) := v], base)
  {
    SlotIsBelow(base, k);
    hide Slot, Wrap;
  }

  lemma SlotIsBelow(base: Word, k: nat)
    requires 1 <= k < DEPTH
    ensures Wrap((Slot(base, k) as int) - base) == TWO_64 - 8 * k
  {
  }

  lemma PushedFrame(m: Machine, base: Word, saved: seq<Word>, v: Word)
    requires Frame(m, base, saved) && |saved| + 1 < DEPTH
    ensures var r := PushValue(m, v);
            && r.Running?
            && Frame(r.m, base, saved + [v])
            && r.m == m.(regs := m.regs[Rsp := Slot(base, |saved| + 1)], mem := m.mem[Slot(base, |saved| + 1) := v])
  {
    hide Slot, Wrap;
    SlotFacts(base, |saved|);
    SlotFacts(base, |saved| + 1);
    forall k: nat | 1 <= k <= |saved|
      ensures Slot(base, k) != Slot(base, |saved| + 1)
    {
      SlotsDiffer(base, k, |saved| + 1);
    }
  }

  lemma PushFrame(m: Machine, base: Word, saved: seq<Word>, v: Word)
    requires Frame(m, base, saved) && |saved| + 1 < DEPTH
    ensures var r := PushValue(m, v);
            && r.Running?
            && Frame(r.m, base, saved + [v])
            && Untouched(m.mem, r.m.mem, base)
            && r.m == m.(regs := m.regs[Rsp := Slot(base, |saved| + 1)], mem := m.mem[Slot(base, |saved| + 1) := v])
  {
    PushedFrame(m, base, saved, v);
    assert Slot(base, |saved| + 1) in m.mem;
    assert |saved| + 1 < DEPTH;
    hide *;
    UntouchedSlot(m.mem, base, |saved| + 1, v);
  }

  lemma PopFrame(w: World, m: Machine, base: Word, saved: seq<Word>, r: Reg)
    requires Frame(m, base, saved) && saved != []
    requires r == Rsp ==> saved[|saved| - 1] == Slot(base, |saved| - 1)
    ensures var o := Plain(w, Pop(r), m);
            && o.Running?
            && Frame(o.m, base, saved[..|saved| - 1])
            && o.m == m.(regs := m.regs[Rsp := Slot(base, |saved| - 1)][r := saved[|saved| - 1]])
  {
    SlotFacts(base, |saved|);
    hide Slot;
  }

  /** The values a list of pushes stores, given the registers before the first. */
  function PushedValues(regs: map<Reg, Word>, base: Word, depth: nat, rs: seq<Reg>): (s: seq<Word>)
    requires AllRegs(regs)
    ensures |s| == |rs|
  {
    seq(|rs|, i requires 0 <= i < |rs| => if rs[i] == Rsp then Slot(base, depth + i) else regs[rs[i]])
  }

  function Pushes(rs: seq<Reg>): (s: seq<Instr>)
    ensures |s| == |rs|
  {
    seq(|rs|, i requires 0 <= i < |rs| => Push(rs[i]))
  }

  /** The pops that undo a list of pushes: the same registers, last first. */
  function Pops(rs: seq<Reg>): (s: seq<Instr>)
    ensures |s| == |rs|
  {
    seq(|rs|, i requires 0 <= i < |rs| => Pop(rs[|rs| - 1 - i]))
  }

  lemma {:induction false} PushesRun(w: World, rs: seq<Reg>, m: Machine, base: Word, saved: seq<Word>)
    requires Frame(m, base, saved) && |saved| + |rs| < DEPTH
    ensures var r := ExecAll(w, Pushes(rs), m);
            && r.Running?
            && Frame(r.m, base, saved + PushedValues(m.regs, base, |saved|, rs))
            && r.m.regs == m.regs[Rsp := Slot(base, |saved| + |rs|)]
            && Untouched(m.mem, r.m.mem, base)
            && r.m.flags == m.flags && r.m.pc == m.pc
    decreases |rs|
  {
    hide Slot, Frame, Untouched;
    FrameTop(m, base, saved);
    if rs == [] {
      UntouchedSelf(m.mem, base);
      assert saved + PushedValues(m.regs, base, |saved|, rs) == saved;
    } else {
      var v := m.regs[rs[0]];
      PushFrame(m, base, saved, v);
      var mid := PushValue(m, v).m;
      PushesStep(w, rs, m, base, |saved|);
      assert mid.regs == m.regs[Rsp := Slot(base, |saved| + 1)];
      hide PushedValues, Pushes, PushValue;
      PushesRun(w, rs[1..], mid, base, saved + [v]);
      UntouchedTrans(m.mem, mid.mem, ExecAll(w, Pushes(rs[1..]), mid).m.mem, base);
      Grouped(saved, v, PushedValues(mid.regs, base, |saved| + 1, rs[1..]));
    }
  }

  lemma Grouped(a: seq<Word>, x: Word, b: seq<Word>)
    ensures a + [x] + b == a + ([x] + b)
  {
  }

  /** The first of a list of pushes. */
  lemma PushesStep(w: World, rs: seq<Reg>, m: Machine, base: Word, depth: nat)
    requires rs != [] && AllRegs(m.regs) && m.regs[Rsp] == Slot(base, depth)
    ensures var v := m.regs[rs[0]];
            && (PushValue(m, v).Running? ==>
                  ExecAll(w, Pushes(rs), m) == ExecAll(w, Pushes(rs[1..]), PushValue(m, v).m))
            && PushedValues(m.regs, base, depth, rs) ==
               [v] + PushedValues(m.regs[Rsp := Slot(base, depth + 1)], base, depth + 1, rs[1..])
  {
    hide Slot, PushValue;
    assert Pushes(rs)[0] == Push(rs[0]) && Pushes(rs)[1..] == Pushes(rs[1..]);
  }

  lemma FrameTop(m: Machine, base: Word, saved: seq<Word>)
    requires Frame(m, base, saved)
    ensures AllRegs(m.regs) && m.regs[Rsp] == Slot(base, |saved|)
  {
  }

  ghost predicate Distinct(rs: seq<Reg>) {
    forall i, j | 0 <= i < j < |rs| :: rs[i] != rs[j]
  }

  /** Popping what was pushed restores every pushed register and the stack pointer. */
  lemma {:induction false} PopsRun(w: World, rs: seq<Reg>, m: Machine, base: Word, saved: seq<Word>,
                                   regs: map<Reg, Word>)
    requires AllRegs(regs) && Distinct(rs)
    requires Frame(m, base, saved + PushedValues(regs, base, |saved|, rs))
    ensures var r := ExecAll(w, Pops(rs), m);
            && r.Running?
            && Frame(r.m, base, saved)
            && r.m.flags == m.flags && r.m.pc == m.pc && r.m.mem == m.mem
            && forall q: Reg | q != Rsp :: r.m.regs[q] == if q in rs then regs[q] else m.regs[q]
    decreases |rs|
  {
    hide Slot, Frame;
    if rs == [] {
      assert saved + PushedValues(regs, base, |saved|, rs) == saved;
      FrameTop(m, base, saved);
    } else {
      var n := |rs| - 1;
      var all := saved + PushedValues(regs, base, |saved|, rs);
      FrameTop(m, base, all);
      PopFrame(w, m, base, all, rs[n]);
      var mid := Plain(w, Pop(rs[n]), m).m;
      assert all[..|all| - 1] == saved + PushedValues(regs, base, |saved|, rs[..n]);
      assert Pops(rs)[0] == Pop(rs[n]) && Pops(rs)[1..] == Pops(rs[..n]);
      PopsRun(w, rs[..n], mid, base, saved, regs);
      var r := ExecAll(w, Pops(rs), m);
      FrameTop(r.m, base, saved);
      forall q: Reg | q != Rsp
        ensures r.m.regs[q] == if q in rs then regs[q] else m.regs[q]
      {
        if q == rs[n] {
          assert q !in rs[..n];
        } else {
          assert q in rs <==> q in rs[..n];
        }
      }
    }
  }

  lemma SlotJump(base: Word, k: nat, n: nat)
    ensures Wrap(Slot(base, k) - 8 * n) == Slot(base, k + n)
    ensures n <= k ==> Wrap(Slot(base, k) + 8 * n) == Slot(base, k - n)
  {
    WrapPlus(base - 8 * k, -8 * n);
    WrapPlus(base - 8 * k, 8 * n);
  }

  /** The quadwords `from + 1 .. from + n` below `base`, as they are. */
  function Cells(mem: map<Word, Word>, base: Word, from: nat, n: nat): (s: seq<Word>)
    requires forall k: nat | from < k <= from + n :: Slot(base, k) in mem
    ensures |s| == n
  {
    seq(n, i requires 0 <= i < n => mem[Slot(base, from + 1 + i)])
  }

  /** Moving the stack pointer down takes cells into the frame with whatever they hold. */
  lemma GrowFrame(m: Machine, base: Word, saved: seq<Word>, n: nat)
    requires Frame(m, base, saved) && |saved| + n < DEPTH
    ensures (forall k: nat | |saved| < k <= |saved| + n :: Slot(base, k) in m.mem)
    ensures Wrap((m.regs[Rsp] as int) - 8 * n) == Slot(base, |saved| + n)
    ensures Frame(m.(regs := m.regs[Rsp := Slot(base, |saved| + n)]), base, saved + Cells(m.mem, base, |saved|, n))
  {
    SlotJump(base, |saved|, n);
  }

  /** Moving it up gives them back. */
  lemma ShrinkFrame(m: Machine, base: Word, saved: seq<Word>, n: nat)
    requires Frame(m, base, saved) && n <= |saved|
    ensures Wrap((m.regs[Rsp] as int) + 8 * n) == Slot(base, |saved| - n)
    ensures Frame(m.(regs := m.regs[Rsp := Slot(base, |saved| - n)]), base, saved[..|saved| - n])
  {
    SlotJump(base, |saved|, n);
  }

  // ---- The emitted sequences ----

  /** The registers in the order `pushaq` pushes them. */
  function Order(): seq<Reg> {
    [Rax, Rcx, Rdx, Rbx, Rsp, Rbp, Rsi, Rdi, R8, R9, R10, R11, R12, R13, R14, R15]
  }

  function SaveCode(rs: seq<Reg>): seq<Instr> {
    [PushFlags] + Pushes(rs) + [Sub(Rsp, 8)]
  }

  function RestoreCode(rs: seq<Reg>): seq<Instr> {
    [Add(Rsp, 8)] + Pops(rs) + [PopFlags]
  }

  /** Where a register stands in that order. */
  function Place(r: Reg): nat {
    match r
    case Rax => 0
    case Rcx => 1
    case Rdx => 2
    case Rbx => 3
    case Rsp => 4
    case Rbp => 5
    case Rsi => 6
    case Rdi => 7
    case R8 => 8
    case R9 => 9
    case R10 => 10
    case R11 => 11
    case R12 => 12
    case R13 => 13
    case R14 => 14
    case R15 => 15
  }

  lemma InPlace(r: Reg)
    ensures |Order()| == 16 && Place(r) < 16 && Order()[Place(r)] == r
  {
  }

  lemma OrderIsComplete()
    ensures |Order()| == 16 && Distinct(Order()) && forall r: Reg :: r in Order()
  {
    PlacesAscend();
    hide Order, Place;
    forall r: Reg
      ensures r in Order()
    {
      InPlace(r);
    }
  }

  lemma PlacesAscend()
    ensures |Order()| == 16 && forall i | 0 <= i < 16 :: Place(Order()[i]) == i
  {
    var o := Order();
    assert Place(o[0]) == 0 && Place(o[1]) == 1 && Place(o[2]) == 2 && Place(o[3]) == 3;
    assert Place(o[4]) == 4 && Place(o[5]) == 5 && Place(o[6]) == 6 && Place(o[7]) == 7;
    assert Place(o[8]) == 8 && Place(o[9]) == 9 && Place(o[10]) == 10 && Place(o[11]) == 11;
    assert Place(o[12]) == 12 && Place(o[13]) == 13 && Place(o[14]) == 14 && Place(o[15]) == 15;
    hide Order, Place;
  }

  /** What saving leaves below the interrupted stack pointer: flags, registers and one padding cell. */
  ghost predicate SavedAll(saved: seq<Word>, rs: seq<Reg>, m: Machine, base: Word)
    requires AllRegs(m.regs)
  {
    |saved| == |rs| + 2 && saved[..|rs| + 1] == [m.flags] + PushedValues(m.regs, base, 1, rs)
  }

  /** Where everything lies below the interrupted stack pointer: the flags, and the registers in their order, the
      stack pointer as it was when its turn came. */
  lemma FrameLayout(saved: seq<Word>, m: Machine, base: Word)
    requires AllRegs(m.regs) && SavedAll(saved, Order(), m, base)
    ensures |saved| == 18 && saved[0] == m.flags
    ensures saved[1] == m.regs[Rax] && saved[2] == m.regs[Rcx] && saved[3] == m.regs[Rdx] && saved[4] == m.regs[Rbx]
    ensures saved[5] == Wrap(base - 40)
    ensures saved[6] == m.regs[Rbp] && saved[7] == m.regs[Rsi] && saved[8] == m.regs[Rdi]
    ensures saved[9] == m.regs[R8] && saved[10] == m.regs[R9] && saved[11] == m.regs[R10] && saved[12] == m.regs[R11]
    ensures saved[13] == m.regs[R12] && saved[14] == m.regs[R13] && saved[15] == m.regs[R14] && saved[16] == m.regs[R15]
  {
    FirstRegisters();
    LastRegisters();
    forall k: nat | k < 16
      ensures saved[k + 1] == if Order()[k] == Rsp then Slot(base, k + 1) else m.regs[Order()[k]]
    {
      SavedAt(saved, m, base, k);
    }
    SavedAt(saved, m, base, 0);
    hide SavedAll, Order, Wrap;
  }

  lemma FirstRegisters()
    ensures |Order()| == 16
    ensures Order()[0] == Rax && Order()[1] == Rcx && Order()[2] == Rdx && Order()[3] == Rbx
    ensures Order()[4] == Rsp && Order()[5] == Rbp && Order()[6] == Rsi && Order()[7] == Rdi
  {
  }

  lemma LastRegisters()
    ensures |Order()| == 16
    ensures Order()[8] == R8 && Order()[9] == R9 && Order()[10] == R10 && Order()[11] == R11
    ensures Order()[12] == R12 && Order()[13] == R13 && Order()[14] == R14 && Order()[15] == R15
  {
  }

  lemma SavedAt(saved: seq<Word>, m: Machine, base: Word, k: nat)
    requires AllRegs(m.regs) && SavedAll(saved, Order(), m, base) && k < 16 && |Order()| == 16
    ensures |saved| == 18 && saved[0] == m.flags
    ensures saved[k + 1] == if Order()[k] == Rsp then Slot(base, k + 1) else m.regs[Order()[k]]
  {
    hide Order;
    assert saved[..17][k + 1] == saved[k + 1] && saved[..17][0] == saved[0];
  }

  /** Moving the stack pointer down by `8 * n` takes the cells there into the frame. */
  lemma MoveDownRun(w: World, m: Machine, base: Word, saved: seq<Word>, n: nat)
    requires Frame(m, base, saved) && 8 * n < TWO_64 && |saved| + n < DEPTH
    ensures forall k: nat | |saved| < k <= |saved| + n :: Slot(base, k) in m.mem
    ensures var r := ExecAll(w, [Sub(Rsp, 8 * n)], m);
            && r.Running?
            && Frame(r.m, base, saved + Cells(m.mem, base, |saved|, n))
            && r.m.regs == m.regs[Rsp := Slot(base, |saved| + n)] && r.m.mem == m.mem
  {
    var v := Slot(base, |saved| + n);
    GrowFrame(m, base, saved, n);
    FrameTop(m, base, saved);
    assert Plain(w, Sub(Rsp, 8 * n), m) == Arithmetic(w, m, Rsp, v);
    hide *;
    ArithmeticRun(w, Sub(Rsp, 8 * n), m, base, v, saved + Cells(m.mem, base, |saved|, n));
  }

  lemma OneRun(w: World, i: Instr, m: Machine, c: Machine)
    requires AllRegs(m.regs) && Plain(w, i, m) == Running(c)
    ensures ExecAll(w, [i], m) == Running(c)
  {
    hide Plain;
    assert ExecAll(w, [i], m) == ExecAll(w, [], c);
  }

  lemma ArithmeticRun(w: World, i: Instr, m: Machine, base: Word, v: Word, saved: seq<Word>)
    requires AllRegs(m.regs) && Plain(w, i, m) == Arithmetic(w, m, Rsp, v)
    requires Frame(m.(regs := m.regs[Rsp := v]), base, saved)
    ensures var r := ExecAll(w, [i], m);
            && r.Running? && Frame(r.m, base, saved)
            && r.m.regs == m.regs[Rsp := v] && r.m.mem == m.mem
  {
    hide Plain;
    var c := m.(regs := m.regs[Rsp := v], flags := w.flagsOf(v));
    OneRun(w, i, m, c);
  }

  /** Moving it up by `8 * n` drops the last cells. */
  lemma MoveUpRun(w: World, m: Machine, base: Word, saved: seq<Word>, n: nat)
    requires Frame(m, base, saved) && 8 * n < TWO_64 && n <= |saved|
    ensures var r := ExecAll(w, [Add(Rsp, 8 * n)], m);
            && r.Running?
            && Frame(r.m, base, saved[..|saved| - n])
            && r.m.regs == m.regs[Rsp := Slot(base, |saved| - n)] && r.m.mem == m.mem
  {
    var v := Slot(base, |saved| - n);
    ShrinkFrame(m, base, saved, n);
    FrameTop(m, base, saved);
    assert Plain(w, Add(Rsp, 8 * n), m) == Arithmetic(w, m, Rsp, v);
    hide *;
    ArithmeticRun(w, Add(Rsp, 8 * n), m, base, v, saved[..|saved| - n]);
  }

  lemma PushFlagsRun(w: World, m: Machine, base: Word)
    requires Frame(m, base, [])
    ensures var r := ExecAll(w, [PushFlags], m);
            && r.Running?
            && Frame(r.m, base, [m.flags])
            && r.m.regs == m.regs[Rsp := Slot(base, 1)]
            && Untouched(m.mem, r.m.mem, base)
  {
    PushFrame(m, base, [], m.flags);
    hide Slot, Frame, Untouched;
    var a := PushValue(m, m.flags).m;
    assert [] + [m.flags] == [m.flags];
    assert ExecAll(w, [PushFlags], m) == ExecAll(w, [], a) == Running(a);
  }

  lemma SaveRuns(w: World, m: Machine, base: Word, rs: seq<Reg>) returns (saved: seq<Word>)
    requires Frame(m, base, []) && |rs| < DEPTH - 3
    ensures var r := ExecAll(w, SaveCode(rs), m);
            && r.Running?
            && SavedAll(saved, rs, m, base)
            && Frame(r.m, base, saved)
            && r.m.regs == m.regs[Rsp := Slot(base, |rs| + 2)]
            && Untouched(m.mem, r.m.mem, base)
  {
    hide Slot, Frame, Untouched;
    PushFlagsRun(w, m, base);
    FrameTop(m, base, []);
    var a := ExecAll(w, [PushFlags], m).m;
    PushesRun(w, rs, a, base, [m.flags]);
    var b := ExecAll(w, Pushes(rs), a).m;
    assert PushedValues(a.regs, base, 1, rs) == PushedValues(m.regs, base, 1, rs);
    var filled := [m.flags] + PushedValues(m.regs, base, 1, rs);
    UntouchedTrans(m.mem, a.mem, b.mem, base);
    MoveDownRun(w, b, base, filled, 1);
    saved := filled + Cells(b.mem, base, |rs| + 1, 1);
    ExecAllConcat(w, [PushFlags], Pushes(rs), m);
    ExecAllConcat(w, [PushFlags] + Pushes(rs), [Sub(Rsp, 8)], m);
    assert saved[..|rs| + 1] == filled;
  }

  lemma PopFlagsRun(w: World, m: Machine, base: Word, flags: Word)
    requires Frame(m, base, [flags])
    ensures var r := ExecAll(w, [PopFlags], m);
            r.Running? && r.m.regs == m.regs[Rsp := base] && r.m.flags == flags && r.m.mem == m.mem
  {
    SlotFacts(base, 1);
    assert Slot(base, 0) == base;
    var c := m.(regs := m.regs[Rsp := base], flags := flags);
    assert m.mem[Slot(base, 1)] == flags;
    assert Plain(w, PopFlags, m) == Running(c);
    hide *;
    OneRun(w, PopFlags, m, c);
  }

  /** Restoring gives back the registers and flags that saving stored, whatever happened to them since. */
  lemma RestoreRuns(w: World, m: Machine, base: Word, rs: seq<Reg>, saved: seq<Word>, m0: Machine)
    requires AllRegs(m0.regs) && m0.regs[Rsp] == base
    requires Distinct(rs) && forall r: Reg :: r in rs
    requires Frame(m, base, saved) && SavedAll(saved, rs, m0, base)
    ensures var r := ExecAll(w, RestoreCode(rs), m);
            r.Running? && r.m.regs == m0.regs && r.m.flags == m0.flags && r.m.mem == m.mem
  {
    hide Slot, Frame;
    MoveUpRun(w, m, base, saved, 1);
    var a := ExecAll(w, [Add(Rsp, 8)], m).m;
    assert saved[..|rs| + 1] == [m0.flags] + PushedValues(m0.regs, base, 1, rs);
    PopsRun(w, rs, a, base, [m0.flags], m0.regs);
    var b := ExecAll(w, Pops(rs), a).m;
    PopFlagsRun(w, b, base, m0.flags);
    FrameTop(b, base, [m0.flags]);
    ExecAllConcat(w, [Add(Rsp, 8)], Pops(rs), m);
    ExecAllConcat(w, [Add(Rsp, 8)] + Pops(rs), [PopFlags], m);
    assert b.regs[Rsp := base] == m0.regs;
  }

  // ---- Aligning the stack for a call ----

  function MakeRoom(): seq<Instr> {
    [Sub(Rsp, 8)]
  }

  function KeepStackAndRax(): seq<Instr> {
    [Push(Rsp), Push(Rax)]
  }

  function BumpSecond(): seq<Instr> {
    [Load(Rax, Rsp, 8), Add(Rax, 8), Store(Rsp, 8, Rax)]
  }

  function AlignedPart(): seq<Instr> {
    MakeRoom() + KeepStackAndRax() + BumpSecond() + [Pop(Rax)]
  }

  /** `prepare_stack_for_call`; its labels are bound at offsets 11 (reserve) and 10 (unaligned). */
  function Prepare(reserve: nat, unaligned: nat): (s: seq<Instr>)
    ensures |s| == 12
  {
    [TestLowNibble(Rsp), JumpNotZero(unaligned)] + AlignedPart() + [Jump(reserve)] + [Push(Rsp)] + [Sub(Rsp, 0x40)]
  }

  /** `restore_stack_after_call`. */
  function Restore(): seq<Instr> {
    [Lea(Rsp, Rsp, 0x40), Pop(Rsp)]
  }

  /** Adding eight to the second quadword of the stack, through rax. */
  lemma BumpSecondRun(w: World, m: Machine, base: Word, s: seq<Word>)
    requires Frame(m, base, s) && |s| >= 2
    ensures var r := ExecAll(w, BumpSecond(), m);
            var v := Wrap((s[|s| - 2] as int) + 8);
            && r.Running?
            && Frame(r.m, base, s[|s| - 2 := v])
            && r.m.regs == m.regs[Rax := v]
            && Untouched(m.mem, r.m.mem, base)
  {
    var a, x := Slot(base, |s| - 1), s[|s| - 2];
    var v := Wrap((x as int) + 8);
    SecondCell(m, base, s);
    var m1 := m.(regs := m.regs[Rax := x]);
    var m2 := m.(regs := m.regs[Rax := v], flags := w.flagsOf(v));
    var m3 := m2.(mem := m.mem[a := v]);
    hide Plain, Slot, Frame, Untouched, ExecAll, Wrap;
    BumpSteps(w, m, a, x, v, m1, m2, m3);
    BumpedFrame(m, m3, base, s, v);
    UntouchedSlot(m.mem, base, |s| - 1, v);
    ThreeRun(w, Load(Rax, Rsp, 8), Add(Rax, 8), Store(Rsp, 8, Rax), m, m1, m2, m3);
  }

  /** The second cell of the frame, as the stack pointer finds it. */
  lemma SecondCell(m: Machine, base: Word, s: seq<Word>)
    requires Frame(m, base, s) && |s| >= 2
    ensures AllRegs(m.regs) && Wrap((m.regs[Rsp] as int) + 8) == Slot(base, |s| - 1)
    ensures Cell(m.mem, Slot(base, |s| - 1)) && m.mem[Slot(base, |s| - 1)] == s[|s| - 2]
  {
    SlotFacts(base, |s|);
    SlotFacts(base, |s| - 1);
    hide Slot, Wrap;
  }

  lemma BumpSteps(w: World, m: Machine, a: Word, x: Word, v: Word, m1: Machine, m2: Machine, m3: Machine)
    requires AllRegs(m.regs) && Wrap((m.regs[Rsp] as int) + 8) == a && Cell(m.mem, a) && m.mem[a] == x
    requires v == Wrap((x as int) + 8)
    requires m1 == m.(regs := m.regs[Rax := x])
    requires m2 == m.(regs := m.regs[Rax := v], flags := w.flagsOf(v)) && m3 == m2.(mem := m.mem[a := v])
    ensures Plain(w, Load(Rax, Rsp, 8), m) == Running(m1)
    ensures AllRegs(m1.regs) && Plain(w, Add(Rax, 8), m1) == Running(m2)
    ensures AllRegs(m2.regs) && Plain(w, Store(Rsp, 8, Rax), m2) == Running(m3)
  {
    assert m1.regs[Rax := v] == m2.regs;
    hide Wrap;
  }

  /** Overwriting the second cell from the top. */
  lemma BumpedFrame(m: Machine, m': Machine, base: Word, s: seq<Word>, v: Word)
    requires Frame(m, base, s) && |s| >= 2
    requires m'.mem == m.mem[Slot(base, |s| - 1) := v] && m'.regs == m.regs[Rax := v]
    ensures Frame(m', base, s[|s| - 2 := v])
  {
    forall k: nat | 1 <= k <= |s| && k != |s| - 1
      ensures Slot(base, k) != Slot(base, |s| - 1)
    {
      SlotsDiffer(base, k, |s| - 1);
    }
    hide Slot;
  }

  lemma ThreeRun(w: World, i: Instr, j: Instr, k: Instr, m: Machine, m1: Machine, m2: Machine, m3: Machine)
    requires AllRegs(m.regs) && Plain(w, i, m) == Running(m1)
    requires AllRegs(m1.regs) && Plain(w, j, m1) == Running(m2)
    requires AllRegs(m2.regs) && Plain(w, k, m2) == Running(m3)
    ensures ExecAll(w, [i, j, k], m) == Running(m3)
  {
    hide Plain;
    assert [i, j, k][1..] == [j, k] && [j, k][1..] == [k] && [k][1..] == [];
    assert ExecAll(w, [k], m2) == ExecAll(w, [], m3);
  }

  lemma PushTwoRun(w: World, m: Machine, base: Word, s: seq<Word>)
    requires Frame(m, base, s) && |s| + 2 < DEPTH
    ensures var r := ExecAll(w, KeepStackAndRax(), m);
            && r.Running?
            && Frame(r.m, base, s + [Slot(base, |s|), m.regs[Rax]])
            && r.m.regs == m.regs[Rsp := Slot(base, |s| + 2)]
            && Untouched(m.mem, r.m.mem, base)
  {
    PushesRun(w, [Rsp, Rax], m, base, s);
    assert Pushes([Rsp, Rax]) == [Push(Rsp), Push(Rax)];
    assert PushedValues(m.regs, base, |s|, [Rsp, Rax]) == [Slot(base, |s|), m.regs[Rax]];
  }

  lemma PopRun(w: World, m: Machine, base: Word, s: seq<Word>, r: Reg)
    requires Frame(m, base, s) && s != [] && r != Rsp
    ensures var o := ExecAll(w, [Pop(r)], m);
            && o.Running?
            && Frame(o.m, base, s[..|s| - 1])
            && o.m.regs == m.regs[Rsp := Slot(base, |s| - 1)][r := s[|s| - 1]]
            && o.m.mem == m.mem
  {
    PopFrame(w, m, base, s, r);
    hide Plain, Slot, Frame;
    FrameTop(m, base, s);
    assert ExecAll(w, [Pop(r)], m) == ExecAll(w, [], Plain(w, Pop(r), m).m);
  }

  lemma KeepRuns(w: World, m: Machine, base: Word, s: seq<Word>) returns (filler: Word)
    requires Frame(m, base, s) && |s| + 4 < DEPTH
    ensures var r := ExecAll(w, MakeRoom() + KeepStackAndRax(), m);
            && r.Running?
            && Frame(r.m, base, s + [filler] + [Slot(base, |s| + 1), m.regs[Rax]])
            && r.m.regs == m.regs[Rsp := Slot(base, |s| + 3)]
            && Untouched(m.mem, r.m.mem, base)
  {
    MoveDownRun(w, m, base, s, 1);
    FrameTop(m, base, s);
    filler := Cells(m.mem, base, |s|, 1)[0];
    assert Cells(m.mem, base, |s|, 1) == [filler];
    var a := ExecAll(w, MakeRoom(), m).m;
    PushTwoRun(w, a, base, s + [filler]);
    hide Slot, Frame, ExecAll, KeepStackAndRax, Untouched;
    ExecAllConcat(w, MakeRoom(), KeepStackAndRax(), m);
  }

  lemma BumpRuns(w: World, m: Machine, base: Word, t: seq<Word>, v: Word, rax: Word)
    requires Frame(m, base, t + [v, rax])
    ensures var r := ExecAll(w, BumpSecond() + [Pop(Rax)], m);
            && r.Running?
            && Frame(r.m, base, t + [Wrap((v as int) + 8)])
            && r.m.regs == m.regs[Rsp := Slot(base, |t| + 1)][Rax := rax]
            && Untouched(m.mem, r.m.mem, base)
  {
    hide Slot, Frame, ExecAll, BumpSecond, Untouched;
    var s := t + [v, rax];
    FrameTop(m, base, s);
    BumpSecondRun(w, m, base, s);
    var bumped := Wrap((v as int) + 8);
    var s' := t + [bumped, rax];
    assert s[|s| - 2 := bumped] == s';
    var c := ExecAll(w, BumpSecond(), m).m;
    PopRun(w, c, base, s', Rax);
    assert s'[..|s'| - 1] == t + [bumped];
    ExecAllConcat(w, BumpSecond(), [Pop(Rax)], m);
  }

  lemma AlignedPartJoins(w: World, m: Machine)
    requires ExecAll(w, MakeRoom() + KeepStackAndRax(), m).Running?
    ensures ExecAll(w, AlignedPart(), m)
         == ExecAll(w, BumpSecond() + [Pop(Rax)], ExecAll(w, MakeRoom() + KeepStackAndRax(), m).m)
  {
    assert AlignedPart() == MakeRoom() + KeepStackAndRax() + (BumpSecond() + [Pop(Rax)]);
    hide *;
    ExecAllConcat(w, MakeRoom() + KeepStackAndRax(), BumpSecond() + [Pop(Rax)], m);
  }

  /** On an aligned stack the sequence leaves a filler quadword and the old stack pointer, rax intact. */
  lemma AlignedPartRuns(w: World, m: Machine, base: Word, s: seq<Word>) returns (extra: seq<Word>)
    requires Frame(m, base, s) && |s| + 4 < DEPTH
    ensures var r := ExecAll(w, AlignedPart(), m);
            && r.Running?
            && |extra| == 2 && extra[1] == Slot(base, |s|)
            && Frame(r.m, base, s + extra)
            && r.m.regs == m.regs[Rsp := Slot(base, |s| + 2)]
            && Untouched(m.mem, r.m.mem, base)
  {
    hide *;
    RaxThere(m, base, s);
    var filler := KeepRuns(w, m, base, s);
    var b := ExecAll(w, MakeRoom() + KeepStackAndRax(), m).m;
    BumpedBack(w, b, base, s, filler, m.regs[Rax]);
    extra := [filler, Slot(base, |s|)];
    AlignedPartJoins(w, m);
    UntouchedTrans(m.mem, b.mem, ExecAll(w, BumpSecond() + [Pop(Rax)], b).m.mem, base);
    RegsBack(m.regs, Slot(base, |s| + 3), Slot(base, |s| + 2));
  }

  lemma RaxThere(m: Machine, base: Word, s: seq<Word>)
    requires Frame(m, base, s)
    ensures Rax in m.regs && base % 8 == 0
  {
  }

  lemma RegsBack(regs: map<Reg, Word>, a: Word, b: Word)
    requires Rax in regs
    ensures regs[Rsp := a][Rsp := b][Rax := regs[Rax]] == regs[Rsp := b]
  {
  }

  /** The second half: the old stack pointer where the bumped value was, and rax back. */
  lemma BumpedBack(w: World, b: Machine, base: Word, s: seq<Word>, filler: Word, rax: Word)
    requires Frame(b, base, s + [filler] + [Slot(base, |s| + 1), rax]) && base % 8 == 0
    ensures var r := ExecAll(w, BumpSecond() + [Pop(Rax)], b);
            && r.Running?
            && Frame(r.m, base, s + [filler, Slot(base, |s|)])
            && r.m.regs == b.regs[Rsp := Slot(base, |s| + 2)][Rax := rax]
            && Untouched(b.mem, r.m.mem, base)
  {
    hide *;
    SlotFacts(base, |s| + 1);
    BumpRuns(w, b, base, s + [filler], Slot(base, |s| + 1), rax);
    assert s + [filler] + [Slot(base, |s|)] == s + [filler, Slot(base, |s|)];
  }

  /** A frame does not depend on flags or program counter. */
  lemma FrameElsewhere(m: Machine, base: Word, s: seq<Word>, flags: Word, pc: nat)
    requires Frame(m, base, s)
    ensures Frame(m.(flags := flags, pc := pc), base, s)
  {
  }

  lemma CodeInside(p: Program, pc: nat, list: seq<Instr>, i: nat, part: seq<Instr>)
    requires CodeAt(p, pc, list) && i + |part| <= |list| && list[i..i + |part|] == part
    ensures CodeAt(p, pc + i, part)
  {
    assert p.code[pc + i..pc + i + |part|] == p.code[pc..pc + |list|][i..i + |part|];
  }

  /** A straight line that turns one frame into another. */
  lemma FrameLine(p: Program, w: World, list: seq<Instr>, m: Machine, base: Word, s': seq<Word>)
    requires CodeAt(p, m.pc, list) && forall i | i in list :: IsPlain(i)
    requires ExecAll(w, list, m).Running? && Frame(ExecAll(w, list, m).m, base, s')
    ensures var r := ExecAll(w, list, m).m.(pc := m.pc + |list|);
            Reaches(p, w, m, r) && Frame(r, base, s')
  {
    hide ExecAll, Frame, CodeAt;
    StraightLine(p, w, list, m);
    var r := ExecAll(w, list, m).m;
    FrameElsewhere(r, base, s', r.flags, m.pc + |list|);
  }

  /** The common tail: 64 bytes of callee space. */
  lemma ReserveSpaceRuns(p: Program, w: World, m: Machine, base: Word, s: seq<Word>)
    returns (m': Machine, more: seq<Word>)
    requires Frame(m, base, s) && |s| + 8 < DEPTH && CodeAt(p, m.pc, [Sub(Rsp, 0x40)])
    ensures Reaches(p, w, m, m') && m'.pc == m.pc + 1
    ensures |more| == 8 && Frame(m', base, s + more)
    ensures m'.regs == m.regs[Rsp := Slot(base, |s| + 8)] && m'.mem == m.mem
  {
    MoveDownRun(w, m, base, s, 8);
    hide Frame, ExecAll, Slot, CodeAt;
    more := Cells(m.mem, base, |s|, 8);
    FrameLine(p, w, [Sub(Rsp, 0x40)], m, base, s + more);
    m' := ExecAll(w, [Sub(Rsp, 0x40)], m).m.(pc := m.pc + 1);
  }

  ghost predicate PreparedAt(p: Program, pc: nat, reserve: nat, unaligned: nat) {
    && CodeAt(p, pc, Prepare(reserve, unaligned))
    && unaligned in p.labels && p.labels[unaligned] == pc + 10
    && reserve in p.labels && p.labels[reserve] == pc + 11
  }

  lemma PrepareParts(p: Program, pc: nat, reserve: nat, unaligned: nat)
    requires PreparedAt(p, pc, reserve, unaligned)
    ensures pc + 12 <= |p.code|
    ensures p.code[pc] == TestLowNibble(Rsp) && p.code[pc + 1] == JumpNotZero(unaligned)
    ensures p.code[pc + 9] == Jump(reserve)
    ensures CodeAt(p, pc + 2, AlignedPart()) && CodeAt(p, pc + 10, [Push(Rsp)]) && CodeAt(p, pc + 11, [Sub(Rsp, 0x40)])
  {
    var list := Prepare(reserve, unaligned);
    assert forall k | 0 <= k < 12 :: p.code[pc + k] == list[k] by {
      assert forall k | 0 <= k < 12 :: p.code[pc..pc + 12][k] == list[k];
    }
    assert list[2..9] == AlignedPart() && list[10..11] == [Push(Rsp)] && list[11..12] == [Sub(Rsp, 0x40)];
    CodeInside(p, pc, list, 2, AlignedPart());
    CodeInside(p, pc, list, 10, [Push(Rsp)]);
    CodeInside(p, pc, list, 11, [Sub(Rsp, 0x40)]);
  }

  /** The alignment test and the branch after it. */
  lemma TestRuns(p: Program, w: World, m: Machine, base: Word, s: seq<Word>, reserve: nat, unaligned: nat)
    returns (m': Machine)
    requires PreparedAt(p, m.pc, reserve, unaligned) && HonestFlags(w) && Frame(m, base, s)
    ensures Reaches(p, w, m, m') && Frame(m', base, s) && m'.regs == m.regs && m'.mem == m.mem
    ensures m'.pc == m.pc + if Slot(base, |s|) % 16 == 0 then 2 else 10
  {
    PrepareParts(p, m.pc, reserve, unaligned);
    FrameTop(m, base, s);
    hide CodeAt, Slot, Frame, Room;
    var m1 := m.(flags := w.flagsOf(Slot(base, |s|) % 16), pc := m.pc + 1);
    m' := m1.(pc := m.pc + if Slot(base, |s|) % 16 == 0 then 2 else 10);
    assert Step(p, w, m) == Running(m1);
    assert Step(p, w, m1) == Running(m');
    FrameElsewhere(m, base, s, m'.flags, m'.pc);
    ReachesSelf(p, w, m');
    ReachesStep(p, w, m1, m', m');
    ReachesStep(p, w, m, m1, m');
  }

  lemma AlignedPath(p: Program, w: World, m: Machine, base: Word, s: seq<Word>, l: nat)
    returns (m': Machine, extra: seq<Word>)
    requires CodeAt(p, m.pc, AlignedPart()) && m.pc + 7 < |p.code| && p.code[m.pc + 7] == Jump(l) && l in p.labels
    requires Frame(m, base, s) && |s| + 4 < DEPTH
    ensures Reaches(p, w, m, m') && m'.pc == p.labels[l]
    ensures |extra| == 2 && extra[1] == Slot(base, |s|)
    ensures Frame(m', base, s + extra) && m'.regs == m.regs[Rsp := Slot(base, |s| + 2)]
    ensures Untouched(m.mem, m'.mem, base)
  {
    extra := AlignedPartRuns(w, m, base, s);
    PlainPart();
    hide Frame, Slot, ExecAll, CodeAt, AlignedPart, Untouched;
    FrameLine(p, w, AlignedPart(), m, base, s + extra);
    var m1 := ExecAll(w, AlignedPart(), m).m.(pc := m.pc + 7);
    m' := m1.(pc := p.labels[l]);
    FrameTop(m1, base, s + extra);
    assert Step(p, w, m1) == Running(m');
    FrameElsewhere(m1, base, s + extra, m1.flags, m'.pc);
    ReachesSelf(p, w, m');
    ReachesStep(p, w, m1, m', m');
    ReachesTrans(p, w, m, m1, m');
  }

  lemma UnalignedPath(p: Program, w: World, m: Machine, base: Word, s: seq<Word>) returns (m': Machine)
    requires CodeAt(p, m.pc, [Push(Rsp)]) && Frame(m, base, s) && |s| + 1 < DEPTH
    ensures Reaches(p, w, m, m') && m'.pc == m.pc + 1
    ensures Frame(m', base, s + [Slot(base, |s|)]) && m'.regs == m.regs[Rsp := Slot(base, |s| + 1)]
    ensures Untouched(m.mem, m'.mem, base)
  {
    PushesRun(w, [Rsp], m, base, s);
    FrameTop(m, base, s);
    assert Pushes([Rsp]) == [Push(Rsp)];
    assert PushedValues(m.regs, base, |s|, [Rsp]) == [Slot(base, |s|)];
    hide Frame, Slot, ExecAll, CodeAt, Untouched;
    FrameLine(p, w, [Push(Rsp)], m, base, s + [Slot(base, |s|)]);
    m' := ExecAll(w, [Push(Rsp)], m).m.(pc := m.pc + 1);
  }

  /** From the alignment test to the reservation, on either path: the old stack pointer ends up on top. */
  lemma AlignRuns(p: Program, w: World, m: Machine, base: Word, s: seq<Word>, reserve: nat, unaligned: nat)
    returns (m': Machine, extra: seq<Word>)
    requires PreparedAt(p, m.pc, reserve, unaligned) && HonestFlags(w)
    requires Frame(m, base, s) && |s| + 4 < DEPTH
    ensures Reaches(p, w, m, m') && m'.pc == m.pc + 11
    ensures |extra| == (if Slot(base, |s|) % 16 == 0 then 2 else 1) && extra[|extra| - 1] == Slot(base, |s|)
    ensures Frame(m', base, s + extra) && m'.regs == m.regs[Rsp := Slot(base, |s| + |extra|)]
    ensures Untouched(m.mem, m'.mem, base)
  {
    PrepareParts(p, m.pc, reserve, unaligned);
    hide Frame, Slot, CodeAt, Untouched;
    var m1 := TestRuns(p, w, m, base, s, reserve, unaligned);
    if Slot(base, |s|) % 16 == 0 {
      m', extra := AlignedPath(p, w, m1, base, s, reserve);
    } else {
      m' := UnalignedPath(p, w, m1, base, s);
      extra := [Slot(base, |s|)];
    }
    ReachesTrans(p, w, m, m1, m');
  }

  lemma PlainPart()
    ensures |AlignedPart()| == 7 && forall i | i in AlignedPart() :: IsPlain(i)
  {
  }

  lemma SlotMod16(base: Word, k: nat)
    ensures Slot(base, k) % 16 == (base - 8 * k) % 16
  {
    WrapMod16(base - 8 * k, (base - 8 * k) / TWO_64);
  }

  lemma SlotAligned(base: Word, k: nat)
    requires base % 8 == 0
    ensures Slot(base, k + if Slot(base, k) % 16 == 0 then 10 else 9) % 16 == 0
  {
    hide Slot;
    SlotMod16(base, k);
    SlotMod16(base, k + 10);
    SlotMod16(base, k + 9);
  }

  /** The prepared stack is 16-byte aligned, with the old stack pointer behind the callee space. */
  lemma PrepareRuns(p: Program, w: World, m: Machine, base: Word, s: seq<Word>, reserve: nat, unaligned: nat)
    returns (m': Machine, extra: seq<Word>)
    requires PreparedAt(p, m.pc, reserve, unaligned) && HonestFlags(w)
    requires base % 8 == 0 && Frame(m, base, s) && |s| + 12 < DEPTH
    ensures Reaches(p, w, m, m') && m'.pc == m.pc + 12
    ensures 9 <= |extra| <= 10 && extra[|extra| - 9] == Slot(base, |s|)
    ensures Frame(m', base, s + extra) && m'.regs == m.regs[Rsp := Slot(base, |s| + |extra|)]
    ensures m'.regs[Rsp] % 16 == 0
    ensures Untouched(m.mem, m'.mem, base)
  {
    hide Frame, Slot, CodeAt, PreparedAt, Reaches, HonestFlags, Untouched;
    PrepareParts(p, m.pc, reserve, unaligned);
    SlotAligned(base, |s|);
    var m1, e1 := AlignRuns(p, w, m, base, s, reserve, unaligned);
    var m2, more := ReserveSpaceRuns(p, w, m1, base, s + e1);
    m', extra := m2, e1 + more;
    assert s + e1 + more == s + extra;
    ReachesTrans(p, w, m, m1, m2);
  }

  // ---- The call itself and the whole interception ----

  /** The calling convention, seen from an interrupted stack pointer `top`: the callee returns with the
      stack pointer it was called with, unmaps nothing, and of the quadwords up to `top` it writes none
      above the return address and the 32 bytes of home space behind it. Everything else, including all
      other registers, the flags and the rest of memory, is its own. */
  ghost predicate Considerate(w: World, top: Word) {
    forall entry: Machine | AllRegs(entry.regs) && Wrap(top - (entry.regs[Rsp] as int)) < 8 * DEPTH ::
        ReturnsClean(w, top, entry)
  }

  ghost predicate ReturnsClean(w: World, top: Word, entry: Machine)
    requires AllRegs(entry.regs)
  {
    var r := w.callee(entry);
    && AllRegs(r.regs)
    && r.regs[Rsp] == Wrap((entry.regs[Rsp] as int) + 8)
    && entry.mem.Keys <= r.mem.Keys
    && forall k: nat | 0 < k && 8 * k + 40 <= Wrap(top - (entry.regs[Rsp] as int)) && Slot(top, k) in entry.mem ::
         r.mem[Slot(top, k)] == entry.mem[Slot(top, k)]
  }

  lemma SlotDistance(base: Word, k: nat)
    requires k < DEPTH
    ensures Wrap(base - Slot(base, k)) == 8 * k
  {
  }

  /** The call returns to the same stack, and the frame above the home space still holds what it held. */
  lemma CallRuns(p: Program, w: World, m: Machine, base: Word, s: seq<Word>) returns (m': Machine, home: seq<Word>)
    requires m.pc < |p.code| && p.code[m.pc] == Call && Considerate(w, base)
    requires Frame(m, base, s) && 4 <= |s| && |s| + 1 < DEPTH
    ensures Reaches(p, w, m, m') && m'.pc == m.pc + 1
    ensures |home| == 4 && Frame(m', base, s[..|s| - 4] + home)
    ensures var entry := PushValue(m, w.back);
            entry.Running? && Untouched(m.mem, entry.m.mem, base) && m'.mem == w.callee(entry.m).mem
  {
    hide Untouched;
    PushFrame(m, base, s, w.back);
    var entry := PushValue(m, w.back).m;
    SlotDistance(base, |s| + 1);
    SlotFacts(base, |s| + 1);
    assert ReturnsClean(w, base, entry);
    var r := w.callee(entry);
    m' := r.(pc := m.pc + 1);
    assert Step(p, w, m) == Running(m');
    ReachesSelf(p, w, m');
    ReachesStep(p, w, m, m', m');
    hide Slot, Wrap, Step;
    assert Room(r.mem, base, DEPTH - 1);
    home := Cells(r.mem, base, |s| - 4, 4);
    CleanFrame(w, entry, base, s + [w.back], s[..|s| - 4], home, m.pc + 1);
  }

  lemma CleanFrame(w: World, entry: Machine, base: Word, all: seq<Word>, kept: seq<Word>, home: seq<Word>, pc: nat)
    requires Frame(entry, base, all) && |all| == |kept| + 5 && all[..|kept|] == kept
    requires ReturnsClean(w, base, entry) && Wrap(base - (entry.regs[Rsp] as int)) == 8 * |all|
    requires w.callee(entry).regs[Rsp] == Slot(base, |kept| + 4)
    requires Room(w.callee(entry).mem, base, DEPTH - 1) && home == Cells(w.callee(entry).mem, base, |kept|, 4)
    ensures Frame(w.callee(entry).(pc := pc), base, kept + home)
  {
    hide Slot, Wrap;
    var r := w.callee(entry);
    forall k: nat | 1 <= k <= |kept| + 4
      ensures r.mem[Slot(base, k)] == (kept + home)[k - 1]
    {
      if k <= |kept| {
        assert all[k - 1] == kept[k - 1];
      }
    }
  }

  /** Restoring the stack drops the callee space and pops the old stack pointer. */
  lemma RestoreStackRuns(p: Program, w: World, m: Machine, base: Word, s: seq<Word>, t: seq<Word>) returns (m': Machine)
    requires CodeAt(p, m.pc, Restore())
    requires Frame(m, base, t) && |s| + 9 <= |t| && t[..|s|] == s && t[|t| - 9] == Slot(base, |s|)
    ensures Reaches(p, w, m, m') && m'.pc == m.pc + 2
    ensures Frame(m', base, s) && m'.flags == m.flags && m'.mem == m.mem
  {
    FrameTop(m, base, t);
    ShrinkFrame(m, base, t, 8);
    var m1 := m.(regs := m.regs[Rsp := Slot(base, |t| - 8)]);
    ShrinkFrame(m, base, t, |t| - |s|);
    var m2 := m.(regs := m.regs[Rsp := Slot(base, |s|)]);
    SlotFacts(base, |t| - 8);
    assert m1.mem[Slot(base, |t| - 8)] == Slot(base, |s|);
    assert Plain(w, Lea(Rsp, Rsp, 0x40), m) == Running(m1);
    assert Plain(w, Pop(Rsp), m1).Running? && Plain(w, Pop(Rsp), m1).m.regs == m2.regs;
    hide Slot, Wrap, Frame, Plain;
    assert ExecAll(w, Restore(), m) == ExecAll(w, [Pop(Rsp)], m1) by {
      assert Restore()[1..] == [Pop(Rsp)];
    }
    assert ExecAll(w, [Pop(Rsp)], m1) == ExecAll(w, [], Plain(w, Pop(Rsp), m1).m);
    assert Plain(w, Pop(Rsp), m1).m == m2;
    StraightLine(p, w, Restore(), m);
    FrameElsewhere(m2, base, s, m.flags, m.pc + 2);
    m' := m2.(pc := m.pc + 2);
  }

  /** `pushaq; call_aligned(f); popaq`, as a detour stub assembles it. */
  function Intercept(reserve: nat, unaligned: nat): (s: seq<Instr>)
    ensures |s| == 51
  {
    SaveCode(Order()) + Prepare(reserve, unaligned) + [Call] + Restore() + RestoreCode(Order())
  }

  ghost predicate InterceptAt(p: Program, pc: nat, reserve: nat, unaligned: nat) {
    && CodeAt(p, pc, Intercept(reserve, unaligned))
    && unaligned in p.labels && p.labels[unaligned] == pc + 28
    && reserve in p.labels && p.labels[reserve] == pc + 29
  }

  lemma InterceptParts(p: Program, pc: nat, reserve: nat, unaligned: nat)
    requires InterceptAt(p, pc, reserve, unaligned)
    ensures CodeAt(p, pc, SaveCode(Order())) && PreparedAt(p, pc + 18, reserve, unaligned)
    ensures pc + 30 < |p.code| && p.code[pc + 30] == Call
    ensures CodeAt(p, pc + 31, Restore()) && CodeAt(p, pc + 33, RestoreCode(Order()))
    ensures |SaveCode(Order())| == 18 && |RestoreCode(Order())| == 18
  {
    var list := Intercept(reserve, unaligned);
    OrderIsComplete();
    var save, prepare, restore, undo := SaveCode(Order()), Prepare(reserve, unaligned), Restore(), RestoreCode(Order());
    assert |save| == 18 && |undo| == 18 && |restore| == 2;
    hide Order, SaveCode, RestoreCode, Prepare, Restore;
    assert list[0..18] == save && list[18..30] == prepare && list[30..31] == [Call];
    assert list[31..33] == restore && list[33..51] == undo;
    CodeInside(p, pc, list, 0, save);
    CodeInside(p, pc, list, 18, prepare);
    CodeInside(p, pc, list, 30, [Call]);
    CodeInside(p, pc, list, 31, restore);
    CodeInside(p, pc, list, 33, undo);
    assert p.code[pc + 30..pc + 31][0] == Call;
  }

  lemma PlainSaving(rs: seq<Reg>)
    ensures forall i | i in SaveCode(rs) :: IsPlain(i)
    ensures forall i | i in RestoreCode(rs) :: IsPlain(i)
  {
  }

  lemma SavedHere(w: World, m: Machine, base: Word) returns (saved: seq<Word>)
    requires Frame(m, base, []) && AllRegs(m.regs)
    ensures var r := ExecAll(w, SaveCode(Order()), m);
            && r.Running? && SavedAll(saved, Order(), m, base) && |saved| == 18 && Frame(r.m, base, saved)
            && Untouched(m.mem, r.m.mem, base)
    ensures |saved| + 12 < DEPTH && forall i | i in SaveCode(Order()) :: IsPlain(i)
  {
    OrderIsComplete();
    PlainSaving(Order());
    saved := SaveRuns(w, m, base, Order());
    hide Order, SaveCode, Frame, ExecAll, Slot, Untouched;
  }

  /** From the interrupted machine to the call: the stack is 16-byte aligned there, and below the
      interrupted stack pointer lies everything needed to undo the interception. */
  lemma InterceptReachesCall(p: Program, w: World, m: Machine, reserve: nat, unaligned: nat)
    returns (m': Machine, saved: seq<Word>, extra: seq<Word>)
    requires InterceptAt(p, m.pc, reserve, unaligned) && HonestFlags(w)
    requires AllRegs(m.regs) && Frame(m, m.regs[Rsp], [])
    ensures Reaches(p, w, m, m') && m'.pc == m.pc + 30
    ensures AllRegs(m'.regs) && m'.regs[Rsp] % 16 == 0
    ensures SavedAll(saved, Order(), m, m.regs[Rsp]) && |saved| == 18
    ensures 9 <= |extra| <= 10 && extra[|extra| - 9] == Slot(m.regs[Rsp], 18)
    ensures Frame(m', m.regs[Rsp], saved + extra)
    ensures Untouched(m.mem, m'.mem, m.regs[Rsp])
  {
    var base := m.regs[Rsp];
    hide *;
    InterceptParts(p, m.pc, reserve, unaligned);
    RaxThere(m, base, []);
    saved := SavedHere(w, m, base);
    FrameLine(p, w, SaveCode(Order()), m, base, saved);
    var m1 := ExecAll(w, SaveCode(Order()), m).m.(pc := m.pc + 18);
    m', extra := PrepareRuns(p, w, m1, base, saved, reserve, unaligned);
    ReachesTrans(p, w, m, m1, m');
    UntouchedTrans(m.mem, m1.mem, m'.mem, base);
    FrameTop(m', base, saved + extra);
  }

  /** From right after the call back to the interrupted machine. */
  lemma InterceptReturns(p: Program, w: World, m0: Machine, m: Machine, reserve: nat, unaligned: nat,
                         saved: seq<Word>, t: seq<Word>)
    returns (m': Machine)
    requires InterceptAt(p, m0.pc, reserve, unaligned) && m.pc == m0.pc + 31
    requires AllRegs(m0.regs) && m0.regs[Rsp] % 8 == 0 && SavedAll(saved, Order(), m0, m0.regs[Rsp]) && |saved| == 18
    requires Frame(m, m0.regs[Rsp], t) && 27 <= |t| && t[..18] == saved && t[|t| - 9] == Slot(m0.regs[Rsp], 18)
    ensures Reaches(p, w, m, m') && m'.pc == m0.pc + 51
    ensures m'.regs == m0.regs && m'.flags == m0.flags && m'.mem == m.mem
  {
    var base := m0.regs[Rsp];
    InterceptParts(p, m0.pc, reserve, unaligned);
    OrderIsComplete();
    PlainSaving(Order());
    hide Order, RestoreCode, Frame, ExecAll, Slot, CodeAt, PreparedAt, InterceptAt, SavedAll;
    var m1 := RestoreStackRuns(p, w, m, base, saved, t);
    RestoreRuns(w, m1, base, Order(), saved, m0);
    StraightLine(p, w, RestoreCode(Order()), m1);
    m' := ExecAll(w, RestoreCode(Order()), m1).m.(pc := m1.pc + 18);
    ReachesTrans(p, w, m, m1, m');
  }

  /** Losing the four quadwords of home space leaves the saved part and the old stack pointer in place. */
  lemma HomeLost(saved: seq<Word>, extra: seq<Word>, home: seq<Word>)
    requires |saved| == 18 && 9 <= |extra| <= 10 && |home| == 4
    ensures var s := saved + extra;
            var t := s[..|s| - 4] + home;
            27 <= |t| == |s| && t[..18] == saved && t[|t| - 9] == extra[|extra| - 9]
  {
  }

  lemma EmptyFrame(m: Machine)
    requires AllRegs(m.regs) && m.regs[Rsp] % 8 == 0 && Room(m.mem, m.regs[Rsp], DEPTH - 1)
    ensures Frame(m, m.regs[Rsp], [])
  {
    assert Slot(m.regs[Rsp], 0) == m.regs[Rsp];
  }

  /** For every machine whose stack pointer is a multiple of eight with stack below it, and every callee
      that keeps to the calling convention, the intercepted code enters the call with a 16-byte aligned
      stack and afterwards has every register, the stack pointer and the flags as they were. What the callee
      finds in memory is what was there before but for the quadwords below the interrupted stack pointer, and
      the memory it leaves is the memory afterwards. */
  lemma InterceptKeepsMachine(p: Program, w: World, m: Machine, reserve: nat, unaligned: nat)
    returns (atCall: Machine, m': Machine)
    requires InterceptAt(p, m.pc, reserve, unaligned) && HonestFlags(w)
    requires AllRegs(m.regs) && m.regs[Rsp] % 8 == 0 && Room(m.mem, m.regs[Rsp], DEPTH - 1)
    requires Considerate(w, m.regs[Rsp])
    ensures Reaches(p, w, m, atCall) && p.code[m.pc + 30] == Call && atCall.pc == m.pc + 30
    ensures AllRegs(atCall.regs) && atCall.regs[Rsp] % 16 == 0
    ensures Reaches(p, w, atCall, m') && m'.pc == m.pc + 51
    ensures m'.regs == m.regs && m'.flags == m.flags
    ensures var entry := PushValue(atCall, w.back);
            entry.Running? && Untouched(m.mem, entry.m.mem, m.regs[Rsp]) && m'.mem == w.callee(entry.m).mem
  {
    var base := m.regs[Rsp];
    hide *;
    EmptyFrame(m);
    InterceptParts(p, m.pc, reserve, unaligned);
    var saved: seq<Word>, extra: seq<Word>;
    atCall, saved, extra := InterceptReachesCall(p, w, m, reserve, unaligned);
    m' := InterceptAfterCall(p, w, m, atCall, reserve, unaligned, saved, extra);
    UntouchedTrans(m.mem, atCall.mem, PushValue(atCall, w.back).m.mem, base);
  }

  /** The call, and everything behind it. */
  lemma InterceptAfterCall(p: Program, w: World, m: Machine, atCall: Machine, reserve: nat, unaligned: nat,
                           saved: seq<Word>, extra: seq<Word>)
    returns (m': Machine)
    requires InterceptAt(p, m.pc, reserve, unaligned) && HonestFlags(w)
    requires AllRegs(m.regs) && m.regs[Rsp] % 8 == 0 && Considerate(w, m.regs[Rsp])
    requires atCall.pc == m.pc + 30 && atCall.pc < |p.code| && p.code[atCall.pc] == Call
    requires SavedAll(saved, Order(), m, m.regs[Rsp]) && |saved| == 18
    requires 9 <= |extra| <= 10 && extra[|extra| - 9] == Slot(m.regs[Rsp], 18)
    requires Frame(atCall, m.regs[Rsp], saved + extra)
    ensures Reaches(p, w, atCall, m') && m'.pc == m.pc + 51
    ensures m'.regs == m.regs && m'.flags == m.flags
    ensures var entry := PushValue(atCall, w.back);
            entry.Running? && Untouched(atCall.mem, entry.m.mem, m.regs[Rsp]) && m'.mem == w.callee(entry.m).mem
  {
    var base := m.regs[Rsp];
    var s := saved + extra;
    assert |s| + 1 < DEPTH;
    hide *;
    var after, home := CallRuns(p, w, atCall, base, s);
    var t := s[..|s| - 4] + home;
    HomeLost(saved, extra, home);
    m' := InterceptReturns(p, w, m, after, reserve, unaligned, saved, t);
    ReachesTrans(p, w, atCall, after, m');
  }

  // ---- The assembler ----

  /** The assembler: instructions are appended to a buffer, labels are numbered and bound to positions. */
  class Assembler {
    var code: seq<Instr>
    var labels: map<nat, nat>
    var next: nat

    constructor ()
      ensures code == [] && labels == map[] && next == 0
    {
      code, labels, next := [], map[], 0;
    }

    method Emit(list: seq<Instr>)
      modifies this`code
      ensures code == old(code) + list
    {
      code := code + list;
    }

    method NewLabel() returns (l: nat)
      modifies this`next
      ensures l == old(next) && next == old(next) + 1
    {
      l, next := next, next + 1;
    }

    method Bind(l: nat)
      modifies this`labels
      ensures labels == old(labels)[l := |code|]
    {
      labels := labels[l := |code|];
    }

    method Pushaq()
      modifies this`code
      ensures code == old(code) + SaveCode(Order())
    {
      Emit([PushFlags]);
      Emit([Push(Rax), Push(Rcx), Push(Rdx), Push(Rbx), Push(Rsp), Push(Rbp), Push(Rsi), Push(Rdi)]);
      Emit([Push(R8), Push(R9), Push(R10), Push(R11), Push(R12), Push(R13), Push(R14), Push(R15)]);
      Emit([Sub(Rsp, 8)]);
      assert Pushes(Order()) == [Push(Rax), Push(Rcx), Push(Rdx), Push(Rbx), Push(Rsp), Push(Rbp), Push(Rsi), Push(Rdi)]
          + [Push(R8), Push(R9), Push(R10), Push(R11), Push(R12), Push(R13), Push(R14), Push(R15)];
    }

    method Popaq()
      modifies this`code
      ensures code == old(code) + RestoreCode(Order())
    {
      Emit([Add(Rsp, 8)]);
      Emit([Pop(R15), Pop(R14), Pop(R13), Pop(R12), Pop(R11), Pop(R10), Pop(R9), Pop(R8)]);
      Emit([Pop(Rdi), Pop(Rsi), Pop(Rbp), Pop(Rsp), Pop(Rbx), Pop(Rdx), Pop(Rcx), Pop(Rax)]);
      Emit([PopFlags]);
      assert Pops(Order()) == [Pop(R15), Pop(R14), Pop(R13), Pop(R12), Pop(R11), Pop(R10), Pop(R9), Pop(R8)]
          + [Pop(Rdi), Pop(Rsi), Pop(Rbp), Pop(Rsp), Pop(Rbx), Pop(Rdx), Pop(Rcx), Pop(Rax)];
    }

    /** Labels handed out so far are older than `next`, so a fresh label is not bound yet. */
    method PrepareStackForCall() returns (reserve: nat, unaligned: nat)
      modifies this
      ensures reserve == old(next) && unaligned == old(next) + 1 && next == old(next) + 2
      ensures code == old(code) + Prepare(reserve, unaligned)
      ensures labels == old(labels)[unaligned := |old(code)| + 10][reserve := |old(code)| + 11]
    {
      reserve := NewLabel();
      unaligned := NewLabel();
      Emit([TestLowNibble(Rsp), JumpNotZero(unaligned)]);
      Emit([Sub(Rsp, 8), Push(Rsp)]);
      Emit([Push(Rax), Load(Rax, Rsp, 8), Add(Rax, 8), Store(Rsp, 8, Rax), Pop(Rax)]);
      Emit([Jump(reserve)]);
      Bind(unaligned);
      Emit([Push(Rsp)]);
      Bind(reserve);
      Emit([Sub(Rsp, 0x40)]);
    }

    method RestoreStackAfterCall()
      modifies this`code
      ensures code == old(code) + Restore()
    {
      Emit([Lea(Rsp, Rsp, 0x40), Pop(Rsp)]);
    }

    method CallAligned() returns (reserve: nat, unaligned: nat)
      modifies this
      ensures reserve == old(next) && unaligned == old(next) + 1 && next == old(next) + 2
      ensures code == old(code) + (Prepare(reserve, unaligned) + [Call] + Restore())
      ensures labels == old(labels)[unaligned := |old(code)| + 10][reserve := |old(code)| + 11]
    {
      reserve, unaligned := PrepareStackForCall();
      Emit([Call]);
      RestoreStackAfterCall();
    }

    /** The sequence a detour stub assembles; the program it yields intercepts wherever it starts. */
    method AssembleIntercept() returns (reserve: nat, unaligned: nat)
      modifies this
      ensures code == old(code) + Intercept(reserve, unaligned)
      ensures InterceptAt(Program(code, labels), |old(code)|, reserve, unaligned)
    {
      OrderIsComplete();
      Pushaq();
      reserve, unaligned := CallAligned();
      Popaq();
    }
  }
}
