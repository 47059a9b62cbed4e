/** One task pipeline of src/client/module/scheduler.cpp: tasks are added from anywhere at any time, a pass
    takes the new ones over and walks the list under its lock, calling what is due. */
module Scheduler {
  import opened Options

  /** `once` handlers always end, `loop` handlers always continue, other handlers decide each time. */
  datatype Kind = Once | Loop | Free

  /** A task with its number, counted in the order in which tasks were added. */
  datatype Task = Task(id: nat, kind: Kind, interval: int, lastCall: int)

  /** Between passes; in a pass, about to look at task `i`; in a pass, inside the handler of task `i`. */
  datatype Phase = Idle | At(i: nat) | Running(i: nat)

  /** What happened: a task was added, with the time at which it was scheduled, or a handler was called. */
  datatype Entry = Added(id: nat, kind: Kind, interval: int, at: int) | Called(id: nat, at: int)

  /** The two lists; the rest is the history the properties are about. A pass remembers when it began, how
      many tasks there were and how long the log was. */
  datatype State = State(
    pending: seq<Task>,
    active: seq<Task>,
    phase: Phase,
    ended: seq<nat>,
    count: nat,
    clock: int,
    log: seq<Entry>,
    passCount: nat,
    passTime: int,
    passLog: nat)

  datatype Step =
    | Add(kind: Kind, interval: int, at: int)
    | Begin(now: int)
    | Look(now: int)
    | Return(end: bool)
    | Finish

  function Init(): State {
    State([], [], Idle, [], 0, 0, [], 0, 0, 0)
  }

  predicate Enabled(s: State, step: Step) {
    match step
    case Add(_, _, _) => true
    case Begin(now) => s.phase.Idle? && now >= s.clock
    case Look(now) => s.phase.At? && s.phase.i < |s.active| && now >= s.clock
    case Return(end) =>
      && s.phase.Running? && s.phase.i < |s.active|
      && (s.active[s.phase.i].kind.Once? ==> end) && (s.active[s.phase.i].kind.Loop? ==> !end)
    case Finish => s.phase.At? && s.phase.i >= |s.active|
  }

  function Next(s: State, step: Step): State
    requires Enabled(s, step)
  {
    match step
    case Add(kind, interval, at) =>
      s.(pending := s.pending + [Task(s.count, kind, interval, at)], count := s.count + 1,
         log := s.log + [Added(s.count, kind, interval, at)])
    case Begin(now) =>
      s.(active := s.active + s.pending, pending := [], phase := At(0), clock := now,
         passCount := s.count, passTime := now, passLog := |s.log|)
    case Look(now) =>
      var i := s.phase.i;
      var t := s.active[i];
      if now - t.lastCall < t.interval then s.(phase := At(i + 1), clock := now)
      else
        s.(active := s.active[i := t.(lastCall := now)], phase := Running(i), clock := now,
           log := s.log + [Called(t.id, now)])
    case Return(end) =>
      var i := s.phase.i;
      if end then s.(active := s.active[..i] + s.active[i + 1..], phase := At(i), ended := s.ended + [s.active[i].id])
      else s.(phase := At(i + 1))
    case Finish => s.(phase := Idle)
  }

  ghost predicate Feasible(s: State, steps: seq<Step>)
    decreases |steps|
  {
    steps != [] ==> Enabled(s, steps[0]) && Feasible(Next(s, steps[0]), steps[1..])
  }

  ghost function Run(s: State, steps: seq<Step>): State
    requires Feasible(s, steps)
    decreases |steps|
  {
    if steps == [] then s else Run(Next(s, steps[0]), steps[1..])
  }

  // ---- What the log says ----

  /** What the log knows of a task: when it was last called, or else scheduled, and how often it was called. */
  datatype Fact = Fact(kind: Kind, interval: int, last: int, calls: nat)

  function FactOf(log: seq<Entry>, id: nat): Option<Fact> {
    if log == [] then None
    else
      var before, e := FactOf(log[..|log| - 1], id), log[|log| - 1];
      if e.id != id then before
      else
        match e
        case Added(_, kind, interval, at) => Some(Fact(kind, interval, at, 0))
        case Called(_, at) =>
          if before.None? then None
          else Some(before.value.(last := at, calls := before.value.calls + 1))
  }

  /** Every call came after the task was added, not before its interval had passed since it was last called
      or scheduled, and was the first when the task was to run once; and no number was given twice. */
  ghost predicate Proper(log: seq<Entry>) {
    forall k | 0 <= k < |log| :: ProperAt(log, k)
  }

  ghost predicate ProperAt(log: seq<Entry>, k: nat)
    requires k < |log|
  {
    var fact := FactOf(log[..k], log[k].id);
    match log[k]
    case Added(_, _, _, _) => fact.None?
    case Called(_, at) =>
      && fact.Some? && at - fact.value.last >= fact.value.interval
      && (fact.value.kind.Once? ==> fact.value.calls == 0)
  }

  lemma FactAfter(log: seq<Entry>, e: Entry, id: nat)
    ensures var before := FactOf(log, id);
            FactOf(log + [e], id) ==
              if e.id != id then before
              else match e
                   case Added(_, kind, interval, at) => Some(Fact(kind, interval, at, 0))
                   case Called(_, at) =>
                     if before.None? then None
                     else Some(before.value.(last := at, calls := before.value.calls + 1))
  {
    assert (log + [e])[..|log|] == log;
  }

  lemma ProperMore(log: seq<Entry>, e: Entry)
    requires Proper(log) && ProperAt(log + [e], |log|)
    ensures Proper(log + [e])
  {
    var longer := log + [e];
    hide FactOf;
    forall k | 0 <= k < |longer|
      ensures ProperAt(longer, k)
    {
      if k < |log| {
        assert longer[..k] == log[..k];
        assert ProperAt(log, k);
      }
    }
  }

  // ---- The invariant ----

  /** The tasks that have not ended, in the order of the lists. */
  function Line(s: State): seq<Task> {
    s.active + s.pending
  }

  /** Survivors stand in the order in which they were added. */
  ghost predicate InOrder(line: seq<Task>, count: nat) {
    && (forall i, j | 0 <= i < j < |line| :: line[i].id < line[j].id)
    && (forall i | 0 <= i < |line| :: line[i].id < count)
  }

  ghost predicate InLine(line: seq<Task>, id: nat) {
    exists i :: 0 <= i < |line| && line[i].id == id
  }

  /** Every task ever added is in line or has ended, not both, and ended once. */
  ghost predicate Conserved(line: seq<Task>, ended: seq<nat>, count: nat) {
    && (forall id | 0 <= id < count :: InLine(line, id) <==> id !in ended)
    && (forall id | id in ended :: id < count)
    && (forall i, j | 0 <= i < j < |ended| :: ended[i] != ended[j])
  }

  /** The list agrees with the log about a task; `ran` when its handler is being called. */
  ghost predicate Agrees(log: seq<Entry>, t: Task, ran: bool) {
    var fact := FactOf(log, t.id);
    && fact.Some? && fact.value.kind == t.kind && fact.value.interval == t.interval && fact.value.last == t.lastCall
    && (t.kind.Once? && !ran ==> fact.value.calls == 0)
  }

  ghost predicate AllAgree(s: State) {
    forall i | 0 <= i < |Line(s)| :: Agrees(s.log, Line(s)[i], s.phase.Running? && s.phase.i == i)
  }

  /** Nothing is known of tasks still to come. */
  ghost predicate FutureUnknown(log: seq<Entry>, count: nat) {
    forall id | id >= count :: FactOf(log, id).None?
  }

  ghost predicate Sane(s: State) {
    && Proper(s.log)
    && InOrder(Line(s), s.count)
    && Conserved(Line(s), s.ended, s.count)
    && AllAgree(s)
    && FutureUnknown(s.log, s.count)
    && (s.phase.At? ==> s.phase.i <= |s.active|)
    && (s.phase.Running? ==> s.phase.i < |s.active|)
  }

  // ---- Each step keeps it ----

  lemma AddKeepsLine(line: seq<Task>, ended: seq<nat>, count: nat, t: Task)
    requires InOrder(line, count) && Conserved(line, ended, count) && t.id == count
    ensures InOrder(line + [t], count + 1) && Conserved(line + [t], ended, count + 1)
  {
    forall id | 0 <= id < count + 1
      ensures InLine(line + [t], id) <==> id !in ended
    {
      if id == count {
        assert (line + [t])[|line|] == t;
      } else if InLine(line, id) {
        var i :| 0 <= i < |line| && line[i].id == id;
        assert (line + [t])[i].id == id;
      }
    }
  }

  lemma AddKeepsSane(s: State, kind: Kind, interval: int, at: int)
    requires Sane(s)
    ensures Sane(Next(s, Add(kind, interval, at)))
  {
    var e, t := Added(s.count, kind, interval, at), Task(s.count, kind, interval, at);
    var after := Next(s, Add(kind, interval, at));
    assert Line(after) == Line(s) + [t];
    AddKeepsLine(Line(s), s.ended, s.count, t);
    assert (s.log + [e])[..|s.log|] == s.log;
    assert FactOf(s.log, s.count).None?;
    ProperMore(s.log, e);
    forall id
      ensures FactOf(s.log + [e], id) == if id == s.count then Some(Fact(kind, interval, at, 0)) else FactOf(s.log, id)
    {
      FactAfter(s.log, e, id);
    }
    hide FactOf, Conserved, Proper;
    forall i | 0 <= i < |Line(after)|
      ensures Agrees(after.log, Line(after)[i], after.phase.Running? && after.phase.i == i)
    {
      if i < |Line(s)| {
        assert Agrees(s.log, Line(s)[i], s.phase.Running? && s.phase.i == i);
        assert Line(s)[i].id < s.count;
      }
    }
  }

  lemma BeginKeepsSane(s: State, now: int)
    requires Sane(s) && Enabled(s, Begin(now))
    ensures Sane(Next(s, Begin(now)))
  {
    assert Line(Next(s, Begin(now))) == Line(s);
    hide Conserved, Proper, InOrder, Agrees, FutureUnknown;
  }

  lemma TouchKeepsLine(line: seq<Task>, ended: seq<nat>, count: nat, i: nat, t: Task)
    requires InOrder(line, count) && Conserved(line, ended, count) && i < |line| && t.id == line[i].id
    ensures InOrder(line[i := t], count) && Conserved(line[i := t], ended, count)
  {
    forall id | 0 <= id < count
      ensures InLine(line[i := t], id) <==> InLine(line, id)
    {
      if InLine(line, id) {
        var k :| 0 <= k < |line| && line[k].id == id;
        assert line[i := t][k].id == id;
      }
      if InLine(line[i := t], id) {
        var k :| 0 <= k < |line| && line[i := t][k].id == id;
        assert line[k].id == id;
      }
    }
  }

  lemma CallKeepsSane(s: State, now: int)
    requires Sane(s) && Enabled(s, Look(now)) && now - s.active[s.phase.i].lastCall >= s.active[s.phase.i].interval
    ensures Sane(Next(s, Look(now)))
  {
    var i := s.phase.i;
    var t := s.active[i];
    var e, after := Called(t.id, now), Next(s, Look(now));
    assert Line(s)[i] == t;
    assert Line(after) == Line(s)[i := t.(lastCall := now)];
    TouchKeepsLine(Line(s), s.ended, s.count, i, t.(lastCall := now));
    assert Agrees(s.log, t, false);
    assert (s.log + [e])[..|s.log|] == s.log;
    ProperMore(s.log, e);
    forall id
      ensures var fact := FactOf(s.log, id);
              FactOf(after.log, id) ==
              if id == t.id then Some(fact.value.(last := now, calls := fact.value.calls + 1)) else fact
    {
      FactAfter(s.log, e, id);
    }
    hide FactOf, Conserved, Proper;
    forall k | 0 <= k < |Line(after)|
      ensures Agrees(after.log, Line(after)[k], after.phase.Running? && after.phase.i == k)
    {
      assert Agrees(s.log, Line(s)[k], false);
      if k != i {
        assert Line(s)[k].id != t.id;
      }
    }
  }

  lemma PassOverKeepsSane(s: State, now: int)
    requires Sane(s) && Enabled(s, Look(now)) && now - s.active[s.phase.i].lastCall < s.active[s.phase.i].interval
    ensures Sane(Next(s, Look(now)))
  {
    assert Line(Next(s, Look(now))) == Line(s);
    hide Conserved, Proper, InOrder, Agrees, FutureUnknown;
  }

  function Without(line: seq<Task>, i: nat): (rest: seq<Task>)
    requires i < |line|
    ensures |rest| == |line| - 1
    ensures forall k | 0 <= k < |rest| :: rest[k] == line[if k < i then k else k + 1]
  {
    line[..i] + line[i + 1..]
  }

  lemma WithoutHas(line: seq<Task>, count: nat, i: nat, id: nat)
    requires InOrder(line, count) && i < |line|
    ensures InLine(Without(line, i), id) <==> InLine(line, id) && id != line[i].id
  {
    var rest := Without(line, i);
    hide Without;
    if InLine(rest, id) {
      var k :| 0 <= k < |rest| && rest[k].id == id;
      var m := if k < i then k else k + 1;
      assert line[m].id == id;
    }
    if InLine(line, id) && id != line[i].id {
      var k :| 0 <= k < |line| && line[k].id == id;
      var m := if k < i then k else k - 1;
      assert rest[m].id == id;
    }
  }

  lemma WithoutInOrder(line: seq<Task>, count: nat, i: nat)
    requires InOrder(line, count) && i < |line|
    ensures InOrder(Without(line, i), count)
  {
    hide Without;
  }

  lemma EndKeepsLine(line: seq<Task>, ended: seq<nat>, count: nat, i: nat)
    requires InOrder(line, count) && Conserved(line, ended, count) && i < |line|
    ensures InOrder(Without(line, i), count) && Conserved(Without(line, i), ended + [line[i].id], count)
  {
    WithoutInOrder(line, count, i);
    var gone := line[i].id;
    assert gone < count;
    assert InLine(line, gone);
    hide InLine, Without, InOrder;
    forall id | 0 <= id < count
      ensures InLine(Without(line, i), id) <==> id !in ended + [gone]
    {
      WithoutHas(line, count, i, id);
    }
  }

  lemma ReturnKeepsSane(s: State, end: bool)
    requires Sane(s) && Enabled(s, Return(end))
    ensures Sane(Next(s, Return(end)))
  {
    var i, after := s.phase.i, Next(s, Return(end));
    assert Line(s)[i] == s.active[i];
    if end {
      assert Line(after) == Without(Line(s), i);
      EndKeepsLine(Line(s), s.ended, s.count, i);
    } else {
      assert Line(after) == Line(s);
    }
    hide Conserved, Proper, InOrder, FactOf, FutureUnknown;
    forall k | 0 <= k < |Line(after)|
      ensures Agrees(after.log, Line(after)[k], false)
    {
      var was := if end && k >= i then k + 1 else k;
      assert Line(after)[k] == Line(s)[was];
      assert Agrees(s.log, Line(s)[was], was == i);
    }
  }

  lemma StepKeepsSane(s: State, step: Step)
    requires Sane(s) && Enabled(s, step)
    ensures Sane(Next(s, step))
  {
    match step {
      case Add(kind, interval, at) => AddKeepsSane(s, kind, interval, at);
      case Begin(now) => BeginKeepsSane(s, now);
      case Look(now) =>
        if now - s.active[s.phase.i].lastCall < s.active[s.phase.i].interval {
          PassOverKeepsSane(s, now);
        } else {
          CallKeepsSane(s, now);
        }
      case Return(end) => ReturnKeepsSane(s, end);
      case Finish =>
        assert Line(Next(s, step)) == Line(s);
        hide Conserved, Proper, InOrder, Agrees, FutureUnknown;
    }
  }

  lemma {:induction false} RunKeepsSane(s: State, steps: seq<Step>)
    requires Sane(s) && Feasible(s, steps)
    ensures Sane(Run(s, steps))
    decreases |steps|
  {
    if steps != [] {
      StepKeepsSane(s, steps[0]);
      hide Sane, Enabled, Next;
      RunKeepsSane(Next(s, steps[0]), steps[1..]);
    }
  }

  /** In every interleaving of additions and passes: nothing added is lost or duplicated, survivors stand in
      the order they were added, and no handler was called too early, or twice when it was to run once. */
  lemma EveryRunIsSane(steps: seq<Step>)
    requires Feasible(Init(), steps)
    ensures var s := Run(Init(), steps);
            && Conserved(s.active + s.pending, s.ended, s.count)
            && InOrder(s.active + s.pending, s.count)
            && Proper(s.log)
  {
    assert Sane(Init());
    RunKeepsSane(Init(), steps);
    hide Conserved, Proper, InOrder, Agrees, FutureUnknown, Run, Feasible;
  }

  // ---- What the steps say ----

  /** The time read last. */
  ghost function TimeRead(steps: seq<Step>, before: int): int {
    if steps == [] then before
    else
      match steps[|steps| - 1]
      case Begin(now) => now
      case Look(now) => now
      case _ => TimeRead(steps[..|steps| - 1], before)
  }

  /** The additions, in order, numbered from zero. */
  ghost function Additions(steps: seq<Step>): seq<Entry> {
    if steps == [] then []
    else
      var before := Additions(steps[..|steps| - 1]);
      match steps[|steps| - 1]
      case Add(kind, interval, at) => before + [Added(|before|, kind, interval, at)]
      case _ => before
  }

  /** The tasks whose handlers answered that they were done, in order. */
  ghost function AnsweredDone(s: State, steps: seq<Step>): seq<nat>
    requires Feasible(s, steps)
    decreases |steps|
  {
    if steps == [] then []
    else
      var rest := AnsweredDone(Next(s, steps[0]), steps[1..]);
      match steps[0]
      case Return(end) => if end then [s.active[s.phase.i].id] + rest else rest
      case _ => rest
  }

  /** The entries of a log that are additions. */
  ghost function AddedIn(log: seq<Entry>): seq<Entry> {
    if log == [] then []
    else AddedIn(log[..|log| - 1]) + if log[|log| - 1].Added? then [log[|log| - 1]] else []
  }

  ghost predicate CalledByNow(log: seq<Entry>, clock: int) {
    forall k | 0 <= k < |log| && log[k].Called? :: log[k].at <= clock
  }

  lemma AddedMore(log: seq<Entry>, e: Entry)
    ensures AddedIn(log + [e]) == AddedIn(log) + if e.Added? then [e] else []
  {
    assert (log + [e])[..|log|] == log;
  }

  /** What log and clock tell of the steps made. */
  ghost predicate Tells(s: State, steps: seq<Step>, before: int) {
    && AddedIn(s.log) == Additions(steps) && s.count == |Additions(steps)|
    && s.clock == TimeRead(steps, before) && CalledByNow(s.log, s.clock)
  }

  lemma TellsMore(s: State, steps: seq<Step>, step: Step, before: int)
    requires Enabled(s, step) && Tells(s, steps, before)
    ensures Tells(Next(s, step), steps + [step], before)
  {
    var after := Next(s, step);
    StepTold(steps, step, before);
    if after.log != s.log {
      AddedMore(s.log, after.log[|s.log|]);
      CalledMore(s.log, after.log[|s.log|], s.clock, after.clock);
    }
    hide AddedIn, Additions, TimeRead;
  }

  lemma StepTold(steps: seq<Step>, step: Step, before: int)
    ensures TimeRead(steps + [step], before) ==
            if step.Begin? || step.Look? then step.now else TimeRead(steps, before)
    ensures Additions(steps + [step]) ==
            Additions(steps) +
            if step.Add? then [Added(|Additions(steps)|, step.kind, step.interval, step.at)] else []
  {
    assert (steps + [step])[..|steps|] == steps;
  }

  lemma CalledMore(log: seq<Entry>, e: Entry, clock: int, later: int)
    requires CalledByNow(log, clock) && clock <= later && (e.Called? ==> e.at <= later)
    ensures CalledByNow(log + [e], later)
  {
  }

  lemma {:induction false} RunInParts(s: State, steps: seq<Step>, k: nat)
    requires Feasible(s, steps) && k <= |steps|
    ensures Feasible(s, steps[..k]) && Feasible(Run(s, steps[..k]), steps[k..])
    ensures Run(s, steps) == Run(Run(s, steps[..k]), steps[k..])
    decreases |steps|
  {
    if k == 0 {
      assert steps[..0] == [] && steps[0..] == steps;
    } else {
      assert steps[..k][0] == steps[0] && steps[..k][1..] == steps[1..][..k - 1] && steps[1..][k - 1..] == steps[k..];
      hide Next, Enabled;
      RunInParts(Next(s, steps[0]), steps[1..], k - 1);
    }
  }

  lemma {:induction false} RunTells(steps: seq<Step>)
    requires Feasible(Init(), steps)
    ensures Tells(Run(Init(), steps), steps, 0)
    decreases |steps|
  {
    if steps != [] {
      var n := |steps| - 1;
      RunInParts(Init(), steps, n);
      RunTells(steps[..n]);
      var s, last := Run(Init(), steps[..n]), steps[n..];
      assert last == [steps[n]] && last[1..] == [] && steps == steps[..n] + [steps[n]];
      assert Run(s, last) == Run(Next(s, steps[n]), []) == Next(s, steps[n]);
      hide Next, Run, Feasible, Tells;
      TellsMore(s, steps[..n], steps[n], 0);
    }
  }

  /** In every run: the log lists the additions as they were made, with their kinds, intervals and times; the clock
      is the time read last, and no call is logged later than that. */
  lemma LogTellsSteps(steps: seq<Step>)
    requires Feasible(Init(), steps)
    ensures var s := Run(Init(), steps);
            && AddedIn(s.log) == Additions(steps) && s.count == |Additions(steps)|
            && s.clock == TimeRead(steps, 0) && CalledByNow(s.log, s.clock)
  {
    RunTells(steps);
    hide Run, Feasible;
  }

  /** A task ends exactly when its handler answers that it is done, and in that order. */
  lemma {:induction false} EndsWhenAnswered(s: State, steps: seq<Step>)
    requires Feasible(s, steps)
    ensures Run(s, steps).ended == s.ended + AnsweredDone(s, steps)
    decreases |steps|
  {
    if steps != [] {
      var next := Next(s, steps[0]);
      EndsWhenAnswered(next, steps[1..]);
      var rest := AnsweredDone(next, steps[1..]);
      assert next.ended + rest == s.ended + AnsweredDone(s, steps) by {
        if steps[0].Return? && steps[0].end {
          assert s.ended + [s.active[s.phase.i].id] + rest == s.ended + ([s.active[s.phase.i].id] + rest);
        }
      }
    }
  }

  /** What has ended was called, and was not to go on for ever. */
  ghost predicate EndedRight(s: State) {
    && (forall id | id in s.ended :: EndedFact(FactOf(s.log, id)))
    && (s.phase.Running? && s.phase.i < |s.active| ==>
          var fact := FactOf(s.log, s.active[s.phase.i].id);
          fact.Some? && fact.value.calls >= 1)
  }

  ghost predicate EndedFact(fact: Option<Fact>) {
    fact.Some? && fact.value.calls >= 1 && !fact.value.kind.Loop?
  }

  /** Nothing in the log undoes a fact. */
  lemma FactStays(s: State, e: Entry, id: nat)
    requires e.Added? ==> FactOf(s.log, e.id).None?
    requires FactOf(s.log, id).Some?
    ensures FactOf(s.log + [e], id).Some?
    ensures var f, g := FactOf(s.log, id).value, FactOf(s.log + [e], id).value;
            g.kind == f.kind && g.calls >= f.calls && (e.Called? && e.id == id ==> g.calls >= 1)
  {
    FactAfter(s.log, e, id);
    hide FactOf;
  }

  lemma StepKeepsEnded(s: State, step: Step)
    requires Sane(s) && EndedRight(s) && Enabled(s, step)
    ensures EndedRight(Next(s, step))
  {
    var after := Next(s, step);
    assert forall i | 0 <= i < |s.active| :: Line(s)[i] == s.active[i];
    assert s.phase.Running? ==> Agrees(s.log, s.active[s.phase.i], true);
    assert step.Look? ==> Agrees(s.log, s.active[s.phase.i], false);
    assert FactOf(s.log, s.count).None?;
    hide Sane, FactOf;
    if after.log != s.log {
      var e := after.log[|s.log|];
      assert after.log == s.log + [e];
      forall id | FactOf(s.log, id).Some?
        ensures FactOf(after.log, id).Some?
        ensures var f, g := FactOf(s.log, id).value, FactOf(after.log, id).value;
                g.kind == f.kind && g.calls >= f.calls && (e.Called? && e.id == id ==> g.calls >= 1)
      {
        FactStays(s, e, id);
      }
    }
  }

  lemma {:induction false} RunKeepsEnded(s: State, steps: seq<Step>)
    requires Sane(s) && EndedRight(s) && Feasible(s, steps)
    ensures Sane(Run(s, steps)) && EndedRight(Run(s, steps))
    decreases |steps|
  {
    if steps != [] {
      StepKeepsSane(s, steps[0]);
      StepKeepsEnded(s, steps[0]);
      hide Sane, EndedRight, Enabled, Next;
      RunKeepsEnded(Next(s, steps[0]), steps[1..]);
    }
  }

  /** In every run: no task ends without having been called; a task that is to go on for ever never ends; and one that
      is to run once has ended as soon as its one call has returned. */
  lemma TasksEndAsTheyShould(steps: seq<Step>, id: nat)
    requires Feasible(Init(), steps) && id < Run(Init(), steps).count
    ensures var s := Run(Init(), steps);
            var fact := FactOf(s.log, id);
            && (id in s.ended ==> fact.Some? && fact.value.calls >= 1 && !fact.value.kind.Loop?)
            && (fact.Some? && fact.value.kind.Once? && fact.value.calls >= 1 ==>
                  id in s.ended || (s.phase.Running? && s.phase.i < |s.active| && s.active[s.phase.i].id == id))
  {
    assert Sane(Init()) && EndedRight(Init());
    RunKeepsEnded(Init(), steps);
    var s := Run(Init(), steps);
    hide Run, Feasible, Proper, FutureUnknown, FactOf;
    if id !in s.ended {
      assert InLine(Line(s), id);
      var i :| 0 <= i < |Line(s)| && Line(s)[i].id == id;
      assert Agrees(s.log, Line(s)[i], s.phase.Running? && s.phase.i == i);
    }
  }

  // ---- Once ----

  function CallCount(log: seq<Entry>, id: nat): nat {
    if log == [] then 0
    else CallCount(log[..|log| - 1], id) + if log[|log| - 1].Called? && log[|log| - 1].id == id then 1 else 0
  }

  /** In a proper log the calls counted are the calls there are, and a task that is to run once has one at most. */
  lemma {:induction false} OnceMeansOnce(log: seq<Entry>, id: nat)
    requires Proper(log)
    ensures var fact := FactOf(log, id);
            if fact.None? then CallCount(log, id) == 0
            else CallCount(log, id) == fact.value.calls && (fact.value.kind.Once? ==> CallCount(log, id) <= 1)
    decreases |log|
  {
    if log != [] {
      var n := |log| - 1;
      ProperLess(log);
      OnceMeansOnce(log[..n], id);
      assert ProperAt(log, n);
    }
  }

  lemma ProperLess(log: seq<Entry>)
    requires Proper(log) && log != []
    ensures Proper(log[..|log| - 1])
  {
    hide FactOf;
    var shorter := log[..|log| - 1];
    forall k | 0 <= k < |shorter|
      ensures ProperAt(shorter, k)
    {
      assert shorter[..k] == log[..k];
      assert ProperAt(log, k);
    }
  }

  // ---- One pass ----

  ghost predicate CalledSince(log: seq<Entry>, from: nat, id: nat) {
    exists k :: from <= k < |log| && log[k].Called? && log[k].id == id
  }

  /** A task was called in this pass, unless it was not due when the pass began. */
  ghost predicate Attended(log: seq<Entry>, from: nat, t: Task, passTime: int) {
    CalledSince(log, from, t.id) || passTime - t.lastCall < t.interval
  }

  lemma CalledStays(log: seq<Entry>, from: nat, id: nat, e: Entry)
    requires CalledSince(log, from, id)
    ensures CalledSince(log + [e], from, id)
  {
    var k :| from <= k < |log| && log[k].Called? && log[k].id == id;
    assert (log + [e])[k] == log[k];
  }

  lemma CalledNow(log: seq<Entry>, from: nat, id: nat, at: int)
    requires from <= |log|
    ensures CalledSince(log + [Called(id, at)], from, id)
  {
    assert (log + [Called(id, at)])[|log|] == Called(id, at);
  }

  /** In a pass: only tasks that were there when it began are walked; those behind the walk are attended;
      calls made so far are in the order of the list, all of tasks behind the walk. */
  ghost predicate Passing(s: State) {
    !s.phase.Idle? ==>
      && s.passLog <= |s.log| && s.clock >= s.passTime
      && (forall j | 0 <= j < |s.active| :: s.active[j].id < s.passCount)
      && (forall j | 0 <= j < s.phase.i <= |s.active| :: Attended(s.log, s.passLog, s.active[j], s.passTime))
      && (s.phase.Running? ==> s.phase.i < |s.active| && CalledSince(s.log, s.passLog, s.active[s.phase.i].id))
      && CallsInOrder(s.log, s.passLog)
      && (forall k | s.passLog <= k < |s.log| && s.log[k].Called? :: Behind(s, s.log[k].id))
  }

  ghost predicate CallsInOrder(log: seq<Entry>, from: nat) {
    forall j, k | from <= j < k < |log| && log[j].Called? && log[k].Called? :: log[j].id < log[k].id
  }

  /** The task comes before all those the walk has still to look at. */
  ghost predicate Behind(s: State, id: nat)
    requires !s.phase.Idle?
  {
    && id < s.passCount
    && forall j | (if s.phase.Running? then s.phase.i + 1 else s.phase.i) <= j < |s.active| :: id < s.active[j].id
  }

  lemma AddKeepsPassing(s: State, kind: Kind, interval: int, at: int)
    requires Passing(s)
    ensures Passing(Next(s, Add(kind, interval, at)))
  {
    var after := Next(s, Add(kind, interval, at));
    if !s.phase.Idle? {
      assert after.active == s.active && after.phase == s.phase;
      forall k | after.passLog <= k < |after.log| && after.log[k].Called?
        ensures Behind(after, after.log[k].id)
      {
        assert k < |s.log| && after.log[k] == s.log[k];
        assert Behind(s, s.log[k].id);
      }
      LogGrows(s, Added(s.count, kind, interval, at));
      hide Attended, CalledSince, Behind;
    }
  }

  lemma LogGrows(s: State, e: Entry)
    ensures forall id | CalledSince(s.log, s.passLog, id) :: CalledSince(s.log + [e], s.passLog, id)
    ensures forall t | Attended(s.log, s.passLog, t, s.passTime) :: Attended(s.log + [e], s.passLog, t, s.passTime)
  {
    forall id | CalledSince(s.log, s.passLog, id)
      ensures CalledSince(s.log + [e], s.passLog, id)
    {
      CalledStays(s.log, s.passLog, id, e);
    }
    hide CalledSince;
  }

  lemma LookKeepsPassing(s: State, now: int)
    requires Sane(s) && Passing(s) && Enabled(s, Look(now))
    ensures Passing(Next(s, Look(now)))
  {
    var after, i := Next(s, Look(now)), s.phase.i;
    assert forall j | 0 <= j < |s.active| :: Line(s)[j] == s.active[j];
    assert forall j | i < j < |s.active| :: s.active[i].id < s.active[j].id;
    LogGrows(s, Called(s.active[i].id, now));
    CalledNow(s.log, s.passLog, s.active[i].id, now);
    hide Sane, CalledSince;
    forall k | after.passLog <= k < |after.log| && after.log[k].Called?
      ensures Behind(after, after.log[k].id)
      ensures k < |s.log| ==> after.log[k].id < s.active[i].id
    {
      if k < |s.log| {
        assert after.log[k] == s.log[k] && Behind(s, s.log[k].id);
      }
    }
  }

  lemma ReturnKeepsPassing(s: State, end: bool)
    requires Passing(s) && Enabled(s, Return(end))
    ensures Passing(Next(s, Return(end)))
  {
    var after, i := Next(s, Return(end)), s.phase.i;
    forall j | 0 <= j < |after.active|
      ensures after.active[j] == s.active[if end && j >= i then j + 1 else j]
    {
    }
    forall k | after.passLog <= k < |after.log| && after.log[k].Called?
      ensures Behind(after, after.log[k].id)
    {
      assert Behind(s, s.log[k].id);
    }
  }

  lemma BeginKeepsPassing(s: State, now: int)
    requires Sane(s) && Enabled(s, Begin(now))
    ensures Passing(Next(s, Begin(now)))
  {
    var after := Next(s, Begin(now));
    assert after.active == Line(s);
    hide Conserved, AllAgree, Proper, FutureUnknown;
  }

  lemma StepKeepsPassing(s: State, step: Step)
    requires Sane(s) && Passing(s) && Enabled(s, step)
    ensures Passing(Next(s, step))
  {
    match step {
      case Add(kind, interval, at) => AddKeepsPassing(s, kind, interval, at);
      case Begin(now) => BeginKeepsPassing(s, now);
      case Look(now) => LookKeepsPassing(s, now);
      case Return(end) => ReturnKeepsPassing(s, end);
      case Finish =>
    }
  }

  lemma {:induction false} RunKeepsPassing(s: State, steps: seq<Step>)
    requires Sane(s) && Passing(s) && Feasible(s, steps)
    ensures Sane(Run(s, steps)) && Passing(Run(s, steps))
    decreases |steps|
  {
    if steps != [] {
      StepKeepsSane(s, steps[0]);
      StepKeepsPassing(s, steps[0]);
      hide Sane, Passing, Enabled, Next;
      RunKeepsPassing(Next(s, steps[0]), steps[1..]);
    }
  }

  /** At the end of a pass: it called each task once at most, in the order they were added, and none that was
      added while it ran; and every survivor that was due when it began has been called. */
  lemma PassIsFair(steps: seq<Step>)
    requires Feasible(Init(), steps) && Enabled(Run(Init(), steps), Finish)
    ensures var s := Run(Init(), steps);
            && CallsInOrder(s.log, s.passLog)
            && (forall k | s.passLog <= k < |s.log| && s.log[k].Called? :: s.log[k].id < s.passCount)
            && (forall t | t in s.active :: t.id < s.passCount && Attended(s.log, s.passLog, t, s.passTime))
  {
    assert Sane(Init()) && Passing(Init());
    RunKeepsPassing(Init(), steps);
    hide Run, Feasible, Conserved, AllAgree, Proper, FutureUnknown, InOrder, Attended, CallsInOrder;
    var s := Run(Init(), steps);
    forall k | s.passLog <= k < |s.log| && s.log[k].Called?
      ensures s.log[k].id < s.passCount
    {
      assert Behind(s, s.log[k].id);
    }
  }

  lemma {:induction false} OneMoreStep(s: State, steps: seq<Step>, step: Step)
    requires Feasible(s, steps) && Enabled(Run(s, steps), step)
    ensures Feasible(s, steps + [step]) && Run(s, steps + [step]) == Next(Run(s, steps), step)
    decreases |steps|
  {
    hide Next, Enabled;
    if steps == [] {
      assert (steps + [step])[0] == step && (steps + [step])[1..] == [];
    } else {
      assert (steps + [step])[0] == steps[0] && (steps + [step])[1..] == steps[1..] + [step];
      OneMoreStep(Next(s, steps[0]), steps[1..], step);
    }
  }

  // ---- The pipeline ----

  /** A call of `schedule` made somewhere in the program. */
  datatype Request = Request(kind: Kind, interval: int, at: int)

  /** What the world does around one look at a task: the time it reads, what is scheduled meanwhile before
      the look and during the handler's call, and what a free handler answers. */
  datatype Moment = Moment(now: int, before: seq<Request>, during: seq<Request>, end: bool)

  /** The handler's answer. */
  function Answer(kind: Kind, end: bool): bool {
    match kind
    case Once => true
    case Loop => false
    case Free => end
  }

  class TaskPipeline {
    var newCallbacks: seq<Task>
    var callbacks: seq<Task>
    var count: nat
    ghost var history: State

    ghost predicate Matches()
      reads this
    {
      newCallbacks == history.pending && callbacks == history.active && count == history.count
    }

    ghost predicate Valid()
      reads this
    {
      Matches() && Sane(history) && Passing(history)
    }

    constructor ()
      ensures Valid() && history == Init()
    {
      newCallbacks, callbacks, count := [], [], 0;
      history := Init();
    }

    /** `schedule` and `add`. */
    method Schedule(request: Request)
      requires Matches()
      modifies this
      ensures Matches() && history == Next(old(history), Add(request.kind, request.interval, request.at))
      ensures old(Valid()) ==> Valid()
    {
      if Sane(history) && Passing(history) {
        StepKeepsSane(history, Add(request.kind, request.interval, request.at));
        StepKeepsPassing(history, Add(request.kind, request.interval, request.at));
      }
      hide Sane, Passing;
      newCallbacks := newCallbacks + [Task(count, request.kind, request.interval, request.at)];
      count := count + 1;
      history := Next(history, Add(request.kind, request.interval, request.at));
    }

    /** Requests that come in one after another. */
    method ScheduleAll(requests: seq<Request>, ghost start: State, ghost soFar: seq<Step>)
      returns (ghost steps: seq<Step>)
      requires Matches() && Feasible(start, soFar) && history == Run(start, soFar)
      modifies this
      ensures Matches() && Feasible(start, steps) && history == Run(start, steps)
      ensures callbacks == old(callbacks) && history.phase == old(history.phase) && history.clock == old(history.clock)
      ensures soFar <= steps
    {
      steps := soFar;
      hide Run, Feasible;
      var k := 0;
      while k < |requests|
        invariant 0 <= k <= |requests|
        invariant Matches() && Feasible(start, steps) && history == Run(start, steps)
        invariant callbacks == old(callbacks)
        invariant history.phase == old(history.phase) && history.clock == old(history.clock)
        invariant soFar <= steps
      {
        ghost var step := Add(requests[k].kind, requests[k].interval, requests[k].at);
        OneMoreStep(start, steps, step);
        Schedule(requests[k]);
        steps := steps + [step];
        k := k + 1;
      }
    }

    /** `merge_callbacks`. */
    method MergeCallbacks(now: int)
      requires Matches() && Enabled(history, Begin(now))
      modifies this
      ensures Matches() && history == Next(old(history), Begin(now))
    {
      callbacks := callbacks + newCallbacks;
      newCallbacks := [];
      history := Next(history, Begin(now));
    }

    /** One round of the loop in `execute`; `more` is whether the iterator moved on rather than the task going. */
    method LookAt(i: nat, m: Moment, ghost start: State, ghost soFar: seq<Step>)
      returns (more: bool, ghost steps: seq<Step>)
      requires Matches() && Feasible(start, soFar) && history == Run(start, soFar)
      requires history.phase == At(i) && i < |callbacks| && history.clock <= m.now
      modifies this
      ensures Matches() && Feasible(start, steps) && history == Run(start, steps)
      ensures history.clock == m.now && soFar <= steps
      ensures if more then history.phase == At(i + 1) && |callbacks| == |old(callbacks)|
              else history.phase == At(i) && |callbacks| == |old(callbacks)| - 1
    {
      hide Run, Feasible;
      steps := ScheduleAll(m.before, start, soFar);
      OneMoreStep(start, steps, Look(m.now));
      steps := steps + [Look(m.now)];
      history := Next(history, Look(m.now));
      if m.now - callbacks[i].lastCall < callbacks[i].interval {
        return true, steps;
      }
      callbacks := callbacks[i := callbacks[i].(lastCall := m.now)];
      steps := ScheduleAll(m.during, start, steps);
      var end := Answer(callbacks[i].kind, m.end);
      OneMoreStep(start, steps, Return(end));
      steps := steps + [Return(end)];
      history := Next(history, Return(end));
      if end {
        callbacks := callbacks[..i] + callbacks[i + 1..];
      }
      more := !end;
    }

    /** The walk of `execute`, up to its end. */
    method Walk(begin: int, world: nat -> Moment) returns (ghost steps: seq<Step>)
      requires Matches() && history.phase.Idle? && history.clock <= begin
      requires forall n: nat :: begin <= world(n).now <= world(n + 1).now
      modifies this
      ensures Matches() && Enabled(history, Finish)
      ensures Feasible(old(history), steps) && history == Run(old(history), steps)
      ensures [Begin(begin)] <= steps
    {
      ghost var start := history;
      MergeCallbacks(begin);
      steps := [];
      OneMoreStep(start, steps, Begin(begin));
      steps := [Begin(begin)];
      hide Run, Feasible, Next;
      var i, n := 0, 0;
      while i < |callbacks|
        invariant Matches() && i <= |callbacks| && history.phase == At(i)
        invariant Feasible(start, steps) && history == Run(start, steps)
        invariant history.clock <= world(n).now
        invariant [Begin(begin)] <= steps
        decreases |callbacks| - i
      {
        var more;
        more, steps := LookAt(i, world(n), start, steps);
        n := n + 1;
        if more {
          i := i + 1;
        }
      }
    }

    /** `execute`, against any behaviour of the world that keeps the clock going forward: it is a run of the
        steps above from one idle moment to the next, and every survivor that was due when it began has been
        called. */
    method Execute(begin: int, world: nat -> Moment) returns (ghost steps: seq<Step>)
      requires Valid() && history.phase.Idle? && history.clock <= begin
      requires forall n: nat :: begin <= world(n).now <= world(n + 1).now
      modifies this
      ensures Valid() && history.phase.Idle?
      ensures [Begin(begin)] <= steps && Feasible(old(history), steps) && history == Run(old(history), steps)
      ensures forall t | t in callbacks :: Attended(history.log, history.passLog, t, history.passTime)
    {
      ghost var start := history;
      steps := Walk(begin, world);
      RunKeepsPassing(start, steps);
      OneMoreStep(start, steps, Finish);
      StepKeepsSane(history, Finish);
      StepKeepsPassing(history, Finish);
      steps := steps + [Finish];
      hide Sane, Run, Feasible, Attended, CallsInOrder;
      history := Next(history, Finish);
    }
  }
}
