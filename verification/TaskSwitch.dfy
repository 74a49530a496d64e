/**
 Cooperative switching between tasks, each with its own stack, on a machine with word memory:
 the push/pop sequence, the first frame of a new thread, the state changes around a switch.
 */
module TaskSwitch {
  import opened Prelude
  import opened Arithmetic

  type Word = u64
  /** Eight-byte words by address; all stack and context addresses are multiples of eight. */
  type Memory = map<nat, Word>

  const REGION: nat := 0x8000
  const DESCRIPTOR: nat := 0x1000
  const CANARY: Word := 0x4d49_4b4f_5354_414b

  function Read(memory: Memory, a: nat): Word {
    if a in memory then memory[a] else 0
  }

  /** The registers a C function must preserve, and the stack pointer. */
  datatype Registers = Registers(rbp: Word, rbx: Word, r12: Word, r13: Word, r14: Word, r15: Word, rsp: nat)

  /** Where a suspended task goes on, and with what. */
  datatype Resumption = Resumption(registers: Registers, rip: Word)

  // ---------- the switch routine

  /** The six pushes below a stack pointer. */
  function PushedAll(memory: Memory, r: Registers): Memory
    requires 48 <= r.rsp
  {
    memory[r.rsp - 8 := r.rbp][r.rsp - 16 := r.rbx][r.rsp - 24 := r.r12][r.rsp - 32 := r.r13][r.rsp - 40 := r.r14]
      [r.rsp - 48 := r.r15]
  }

  /** The pushes, and the stack pointer stored in the context. */
  function Saved(memory: Memory, r: Registers, context: nat): Memory
    requires 48 <= r.rsp < TWO64
  {
    PushedAll(memory, r)[context := r.rsp - 48]
  }

  /** The same after a CALL, which leaves its return address on the stack. */
  function CallSaved(memory: Memory, r: Registers, returnAddress: Word, context: nat): Memory
    requires 56 <= r.rsp < TWO64
  {
    Saved(memory[r.rsp - 8 := returnAddress], r.(rsp := r.rsp - 8), context)
  }

  /** What six pops and a return take from a frame. */
  function Loaded(memory: Memory, frame: nat): Resumption {
    Resumption(
      Registers(Read(memory, frame + 40), Read(memory, frame + 32), Read(memory, frame + 24), Read(memory, frame + 16),
                Read(memory, frame + 8), Read(memory, frame), frame + 56),
      Read(memory, frame + 48))
  }

  // ---------- tasks

  datatype State = Ready | Running | Zombie

  datatype Task = Task(pid: nat, context: nat, stackBottom: nat, stackTop: nat, pageTable: nat, state: State)
  {
    /** The words nobody but this task, or a switch, may write. */
    predicate Owns(a: nat) {
      a == context || InStack(a)
    }
    predicate InStack(a: nat) {
      stackBottom <= a < stackTop
    }
    predicate Shaped() {
      && context % 8 == 0 && stackBottom % 8 == 0 && stackTop % 16 == 0
      && stackBottom < stackTop < TWO64 && !InStack(context)
    }
  }

  predicate Separate(a: Task, b: Task) {
    && a.context != b.context && !a.InStack(b.context) && !b.InStack(a.context)
    && (a.stackTop <= b.stackBottom || b.stackTop <= a.stackBottom)
  }

  /**
   `gone` are the tasks whose page has been given back. `waiting[t]` records how task t left the
   processor; it is history, the machine does not have it.
   */
  datatype System = System(
    memory: Memory, registers: Registers, tasks: seq<Task>, gone: set<nat>, current: nat, rsp0: nat, nextPid: nat,
    waiting: seq<Resumption>)
  {
    predicate Alive(t: nat) {
      t < |tasks| && t !in gone
    }
  }

  /** The words of a suspended task's frame, and its stored stack pointer, are what it left. */
  predicate Suspended(memory: Memory, task: Task, w: Resumption) {
    var frame := Read(memory, task.context);
    && frame % 8 == 0 && task.stackBottom <= frame && frame + 56 < task.stackTop
    && Loaded(memory, frame) == w
  }

  predicate OnStack(task: Task, rsp: nat) {
    task.stackBottom <= rsp < task.stackTop && rsp % 8 == 0
  }

  ghost predicate Inv(s: System) {
    && s.Alive(s.current) && |s.tasks| == |s.waiting|
    && (forall t: nat :: t in s.gone ==> t < |s.tasks|)
    && (forall t: nat :: s.Alive(t) ==> s.tasks[t].Shaped())
    && (forall t: nat, u: nat :: s.Alive(t) && s.Alive(u) && t != u ==> Separate(s.tasks[t], s.tasks[u]))
    && (forall t: nat :: s.Alive(t) && t != s.current ==> Suspended(s.memory, s.tasks[t], s.waiting[t]))
    && (forall t: nat :: s.Alive(t) && t != s.current ==> s.tasks[t].state != Running)
    && s.tasks[s.current].state != Ready
    && s.rsp0 == s.tasks[s.current].stackTop
    && OnStack(s.tasks[s.current], s.registers.rsp)
  }

  // ---------- what can happen

  datatype Event =
    | Work(memory: Memory, registers: Registers)          // the current task computes, even if it has just exited
    | Switch(next: nat, returnAddress: Word)              // it calls the switch
    | Create(base: nat, trampoline: Word, guard: Word)    // it creates a thread in a fresh page
    | Exit                                                // its thread function returns
    | Reap(task: nat)                                     // it frees a finished thread's page

  /** A task computes on its own stack and on memory that belongs to no task. */
  ghost predicate StaysHome(s: System, memory: Memory)
    requires s.current < |s.tasks|
  {
    forall t: nat, a: nat :: s.Alive(t) && s.tasks[t].Owns(a) && !s.tasks[s.current].InStack(a) ==>
      Read(memory, a) == Read(s.memory, a)
  }

  function NewTask(s: System, base: nat): Task
    requires s.current < |s.tasks|
  {
    Task(s.nextPid, base, base + DESCRIPTOR + 8, base + REGION, s.tasks[s.current].pageTable, Ready)
  }

  predicate OutsideOf(task: Task, base: nat) {
    && (task.stackTop <= base || base + REGION <= task.stackBottom)
    && (task.context < base || base + REGION <= task.context)
  }

  /** The page is fresh: no task lives in it. */
  ghost predicate FreshPage(s: System, base: nat) {
    && base % 16 == 0 && base + REGION < TWO64
    && forall t: nat :: s.Alive(t) ==> OutsideOf(s.tasks[t], base)
  }

  /** The first frame: six zero registers, the trampoline, and a guard return address for it. */
  function FirstFrame(memory: Memory, base: nat, trampoline: Word, guard: Word): Memory
    requires base + REGION < TWO64
  {
    var top := base + REGION;
    memory[base := top - 64][base + DESCRIPTOR := CANARY]
      [top - 64 := 0][top - 56 := 0][top - 48 := 0][top - 40 := 0][top - 32 := 0][top - 24 := 0]
      [top - 16 := trampoline][top - 8 := guard]
  }

  /** Task states after `switch_to`: a running caller becomes ready, a zombie stays one. */
  function HandedOver(tasks: seq<Task>, current: nat, next: nat): seq<Task>
    requires current < |tasks| && next < |tasks|
  {
    var previous := tasks[current];
    var left := if previous.state == Running then previous.(state := Ready) else previous;
    tasks[current := left][next := tasks[next].(state := Running)]
  }

  /** The state changes of `switch_to` followed by the switch routine. */
  function Switched(s: System, next: nat, returnAddress: Word): System
    requires s.current < |s.tasks| == |s.waiting| && next < |s.tasks| && 56 <= s.registers.rsp < TWO64
  {
    var memory := CallSaved(s.memory, s.registers, returnAddress, s.tasks[s.current].context);
    System(memory, Loaded(memory, Read(memory, s.tasks[next].context)).registers,
           HandedOver(s.tasks, s.current, next), s.gone,
           next, s.tasks[next].stackTop, s.nextPid,
           s.waiting[s.current := Resumption(s.registers, returnAddress)])
  }

  predicate CanSwitch(s: System, next: nat)
    requires s.current < |s.tasks|
  {
    && s.Alive(next) && next != s.current
    && s.tasks[next].state == Ready && s.tasks[s.current].state != Ready
    && s.tasks[s.current].pageTable == s.tasks[next].pageTable
  }

  /** None: a failed assertion of the source, or a step no task can take. */
  ghost function Step(s: System, e: Event): Option<System>
    requires Inv(s)
  {
    var me := s.tasks[s.current];
    match e
    case Work(memory, registers) =>
      if StaysHome(s, memory) && OnStack(me, registers.rsp)
      then Some(s.(memory := memory, registers := registers)) else None
    case Switch(next, returnAddress) =>
      if CanSwitch(s, next) && me.stackBottom + 56 <= s.registers.rsp
      then Some(Switched(s, next, returnAddress)) else None
    case Create(base, trampoline, guard) =>
      if FreshPage(s, base) && s.nextPid + 1 < TWO64 then
        Some(s.(memory := FirstFrame(s.memory, base, trampoline, guard), tasks := s.tasks + [NewTask(s, base)],
                nextPid := s.nextPid + 1,
                waiting := s.waiting + [Resumption(Registers(0, 0, 0, 0, 0, 0, base + REGION - 8), trampoline)]))
      else None
    case Exit =>
      if me.state == Running && s.current != 0
      then Some(s.(tasks := s.tasks[s.current := me.(state := Zombie)])) else None
    case Reap(t) =>
      // the reaper has checked that the thread is a zombie and that its own stack is in use
      if s.Alive(t) && t != s.current && s.tasks[t].state == Zombie && me.state == Running
      then Some(s.(gone := s.gone + {t})) else None
  }

  // ---------- frames survive

  /** Same stored words, same suspended task. */
  lemma {:induction false} SuspendedKept(before: Memory, after: Memory, task: Task, w: Resumption)
    requires Suspended(before, task, w)
    requires forall a: nat :: task.Owns(a) ==> Read(after, a) == Read(before, a)
    ensures Suspended(after, task, w)
  {
    assert task.Owns(task.context);
    var frame: nat := Read(before, task.context);
    assert task.Owns(frame) && task.Owns(frame + 8) && task.Owns(frame + 16) && task.Owns(frame + 24);
    assert task.Owns(frame + 32) && task.Owns(frame + 40) && task.Owns(frame + 48);
  }

  /** The call and the six pushes leave a frame from which pops and return give everything back. */
  lemma {:induction false} SaveThenLoad(memory: Memory, task: Task, r: Registers, returnAddress: Word)
    requires task.Shaped() && OnStack(task, r.rsp) && task.stackBottom + 56 <= r.rsp
    ensures Suspended(CallSaved(memory, r, returnAddress, task.context), task, Resumption(r, returnAddress))
  {
  }

  /** The saving side writes nothing but its own stack and context. */
  lemma {:induction false} SaveStaysHome(memory: Memory, task: Task, r: Registers, returnAddress: Word, a: nat)
    requires task.Shaped() && OnStack(task, r.rsp) && task.stackBottom + 56 <= r.rsp && !task.Owns(a)
    ensures Read(CallSaved(memory, r, returnAddress, task.context), a) == Read(memory, a)
  {
  }

  lemma {:induction false} SeparateOwns(a: Task, b: Task, w: nat)
    requires Separate(a, b) && a.Owns(w)
    ensures !b.Owns(w)
  {
  }

  lemma {:induction false} OthersKeepFrames(
    memory: Memory, me: Task, other: Task, w: Resumption, r: Registers, returnAddress: Word)
    requires me.Shaped() && OnStack(me, r.rsp) && me.stackBottom + 56 <= r.rsp
    requires Separate(other, me) && Suspended(memory, other, w)
    ensures Suspended(CallSaved(memory, r, returnAddress, me.context), other, w)
  {
    forall a: nat | other.Owns(a)
      ensures Read(CallSaved(memory, r, returnAddress, me.context), a) == Read(memory, a)
    {
      SeparateOwns(other, me, a);
      SaveStaysHome(memory, me, r, returnAddress, a);
    }
    SuspendedKept(memory, CallSaved(memory, r, returnAddress, me.context), other, w);
  }

  lemma {:induction false} CurrentFacts(s: System)
    requires Inv(s)
    ensures s.tasks[s.current].Shaped() && OnStack(s.tasks[s.current], s.registers.rsp)
  {
  }

  lemma {:induction false} OtherFacts(s: System, t: nat)
    requires Inv(s) && s.Alive(t) && t != s.current
    ensures Separate(s.tasks[t], s.tasks[s.current]) && Suspended(s.memory, s.tasks[t], s.waiting[t])
  {
  }

  /** What a switch does to the tasks that take no part in it, and to the one that leaves. */
  lemma {:induction false} SwitchKeepsFrames(s: System, next: nat, returnAddress: Word, t: nat)
    requires Inv(s) && CanSwitch(s, next) && s.tasks[s.current].stackBottom + 56 <= s.registers.rsp
    requires s.Alive(t)
    ensures Suspended(CallSaved(s.memory, s.registers, returnAddress, s.tasks[s.current].context), s.tasks[t],
                      if t == s.current then Resumption(s.registers, returnAddress) else s.waiting[t])
  {
    var me := s.tasks[s.current];
    CurrentFacts(s);
    if t == s.current {
      SaveThenLoad(s.memory, me, s.registers, returnAddress);
    } else {
      OtherFacts(s, t);
      OthersKeepFrames(s.memory, me, s.tasks[t], s.waiting[t], s.registers, returnAddress);
    }
  }

  lemma {:induction false} ResumedOnStack(memory: Memory, task: Task, w: Resumption)
    requires Suspended(memory, task, w)
    ensures Loaded(memory, Read(memory, task.context)) == w && OnStack(task, w.registers.rsp)
  {
  }

  predicate SamePlace(a: Task, b: Task) {
    a.context == b.context && a.stackBottom == b.stackBottom && a.stackTop == b.stackTop
  }

  lemma {:induction false} SuspendedPlace(memory: Memory, a: Task, b: Task, w: Resumption)
    requires SamePlace(a, b) && Suspended(memory, a, w)
    ensures Suspended(memory, b, w)
  {
  }

  lemma {:induction false} PlacesKept(s: System, s': System)
    requires forall t: nat :: s.Alive(t) ==> s.tasks[t].Shaped()
    requires forall t: nat, u: nat :: s.Alive(t) && s.Alive(u) && t != u ==> Separate(s.tasks[t], s.tasks[u])
    requires forall t: nat :: s'.Alive(t) ==> s.Alive(t) && SamePlace(s.tasks[t], s'.tasks[t])
    ensures forall t: nat :: s'.Alive(t) ==> s'.tasks[t].Shaped()
    ensures forall t: nat, u: nat :: s'.Alive(t) && s'.Alive(u) && t != u ==> Separate(s'.tasks[t], s'.tasks[u])
  {
    forall t: nat, u: nat | s'.Alive(t) && s'.Alive(u) && t != u
      ensures Separate(s'.tasks[t], s'.tasks[u])
    {
      assert SamePlace(s.tasks[t], s'.tasks[t]) && SamePlace(s.tasks[u], s'.tasks[u]);
      assert Separate(s.tasks[t], s.tasks[u]);
    }
    forall t: nat | s'.Alive(t)
      ensures s'.tasks[t].Shaped()
    {
      assert SamePlace(s.tasks[t], s'.tasks[t]) && s.tasks[t].Shaped();
    }
  }

  lemma {:induction false} SwitchKeepsPlaces(s: System, next: nat, returnAddress: Word)
    requires Inv(s) && CanSwitch(s, next) && s.tasks[s.current].stackBottom + 56 <= s.registers.rsp
    ensures var s' := Switched(s, next, returnAddress);
      && (forall t: nat :: s'.Alive(t) ==> SamePlace(s.tasks[t], s'.tasks[t]))
      && (forall t: nat :: s'.Alive(t) ==> s'.tasks[t].Shaped())
      && (forall t: nat, u: nat :: s'.Alive(t) && s'.Alive(u) && t != u ==> Separate(s'.tasks[t], s'.tasks[u]))
      && (forall t: nat :: s'.Alive(t) && t != s'.current ==> s'.tasks[t].state != Running)
  {
    PlacesKept(s, Switched(s, next, returnAddress));
  }

  /** A switch hands over exactly what the resumed task had left, and keeps the invariant. */
  lemma {:induction false} SwitchResumes(s: System, next: nat, returnAddress: Word)
    requires Inv(s) && CanSwitch(s, next) && s.tasks[s.current].stackBottom + 56 <= s.registers.rsp
    ensures var s' := Switched(s, next, returnAddress);
      && Inv(s')
      && s'.registers == s.waiting[next].registers
      && Loaded(s'.memory, Read(s'.memory, s.tasks[next].context)).rip == s.waiting[next].rip
  {
    var s' := Switched(s, next, returnAddress);
    assert s'.memory == CallSaved(s.memory, s.registers, returnAddress, s.tasks[s.current].context);
    SwitchKeepsFrames(s, next, returnAddress, next);
    SwitchKeepsPlaces(s, next, returnAddress);
    ResumedOnStack(s'.memory, s.tasks[next], s.waiting[next]);
    forall t: nat | s'.Alive(t) && t != s'.current
      ensures Suspended(s'.memory, s'.tasks[t], s'.waiting[t])
    {
      SwitchKeepsFrames(s, next, returnAddress, t);
      SuspendedPlace(s'.memory, s.tasks[t], s'.tasks[t], s'.waiting[t]);
    }
  }

  // ---------- new threads

  lemma {:induction false} FirstFrameReads(memory: Memory, base: nat, trampoline: Word, guard: Word)
    requires base + REGION < TWO64
    ensures var memory', top := FirstFrame(memory, base, trampoline, guard), base + REGION;
      && Read(memory', base) == top - 64
      && Read(memory', top - 64) == Read(memory', top - 56) == Read(memory', top - 48) == 0
      && Read(memory', top - 40) == Read(memory', top - 32) == Read(memory', top - 24) == 0
      && Read(memory', top - 16) == trampoline && Read(memory', top - 8) == guard
  {
  }

  lemma {:induction false} PlaceShaped(base: nat, task: Task)
    requires base % 16 == 0 && base + REGION < TWO64
    requires task.context == base && task.stackBottom == base + DESCRIPTOR + 8 && task.stackTop == base + REGION
    ensures task.Shaped() && (base + REGION - 8) % 16 == 8
  {
    var q := base / 16;
    assert base == 16 * q;
    SameRemainder(2 * q, 8, 0);
    SameRemainder(2 * q + 0x201, 8, 0);
    SameRemainder(q + 0x800, 16, 0);
    SameRemainder(q + 0x7ff, 16, 8);
  }

  lemma {:induction false} FrameAligned(base: nat)
    requires base % 16 == 0
    ensures (base + REGION - 64) % 8 == 0
  {
    SameRemainder(2 * (base / 16) + 0xff8, 8, 0);
  }

  lemma {:induction false} ZeroFrame(memory: Memory, top: nat, trampoline: Word)
    requires top >= 64
    requires Read(memory, top - 64) == Read(memory, top - 56) == Read(memory, top - 48) == 0
    requires Read(memory, top - 40) == Read(memory, top - 32) == Read(memory, top - 24) == 0
    requires Read(memory, top - 16) == trampoline
    ensures Loaded(memory, top - 64) == Resumption(Registers(0, 0, 0, 0, 0, 0, top - 8), trampoline)
  {
  }

  /** These words make a suspended task, in whatever memory they stand. */
  lemma {:induction false} FrameWaits(memory: Memory, base: nat, trampoline: Word, task: Task)
    requires base % 16 == 0 && base + REGION < TWO64
    requires task.context == base && task.stackBottom == base + DESCRIPTOR + 8 && task.stackTop == base + REGION
    requires Read(memory, base) == base + REGION - 64
    requires Read(memory, base + REGION - 64) == Read(memory, base + REGION - 56) ==
      Read(memory, base + REGION - 48) == 0
    requires Read(memory, base + REGION - 40) == Read(memory, base + REGION - 32) ==
      Read(memory, base + REGION - 24) == 0
    requires Read(memory, base + REGION - 16) == trampoline
    ensures Suspended(memory, task, Resumption(Registers(0, 0, 0, 0, 0, 0, base + REGION - 8), trampoline))
  {
    FrameAligned(base);
    ZeroFrame(memory, base + REGION, trampoline);
  }

  /** The first frame is a suspended task about to enter the trampoline with zero registers and RSP = top - 8. */
  lemma {:induction false} FirstFrameSuspends(memory: Memory, base: nat, trampoline: Word, guard: Word, task: Task)
    requires base % 16 == 0 && base + REGION < TWO64
    requires task.context == base && task.stackBottom == base + DESCRIPTOR + 8 && task.stackTop == base + REGION
    ensures task.Shaped() && (base + REGION - 8) % 16 == 8
    ensures Suspended(FirstFrame(memory, base, trampoline, guard), task,
                      Resumption(Registers(0, 0, 0, 0, 0, 0, base + REGION - 8), trampoline))
    ensures Read(FirstFrame(memory, base, trampoline, guard), base + REGION - 8) == guard
  {
    PlaceShaped(base, task);
    FirstFrameReads(memory, base, trampoline, guard);
    FrameWaits(FirstFrame(memory, base, trampoline, guard), base, trampoline, task);
  }

  lemma {:induction false} FirstFrameElsewhere(memory: Memory, base: nat, trampoline: Word, guard: Word, a: nat)
    requires base + REGION < TWO64 && (a < base || base + REGION <= a)
    ensures Read(FirstFrame(memory, base, trampoline, guard), a) == Read(memory, a)
  {
  }

  lemma {:induction false} OthersOutlive(
    memory: Memory, base: nat, trampoline: Word, guard: Word, task: Task, w: Resumption)
    requires base + REGION < TWO64 && OutsideOf(task, base) && Suspended(memory, task, w)
    ensures Suspended(FirstFrame(memory, base, trampoline, guard), task, w)
  {
    forall a: nat | task.Owns(a)
      ensures Read(FirstFrame(memory, base, trampoline, guard), a) == Read(memory, a)
    {
      FirstFrameElsewhere(memory, base, trampoline, guard, a);
    }
    SuspendedKept(memory, FirstFrame(memory, base, trampoline, guard), task, w);
  }

  lemma {:induction false} CreateKeepsInv(s: System, base: nat, trampoline: Word, guard: Word)
    requires Inv(s) && Step(s, Create(base, trampoline, guard)).Some?
    ensures Inv(Step(s, Create(base, trampoline, guard)).value)
  {
    var s' := Step(s, Create(base, trampoline, guard)).value;
    var n := |s.tasks|;
    FirstFrameSuspends(s.memory, base, trampoline, guard, s'.tasks[n]);
    forall t: nat | s'.Alive(t)
      ensures s'.tasks[t].Shaped()
      ensures t != s'.current ==> Suspended(s'.memory, s'.tasks[t], s'.waiting[t]) && s'.tasks[t].state != Running
    {
      if t < n && t != s.current {
        assert s.Alive(t) && OutsideOf(s.tasks[t], base);
        OthersOutlive(s.memory, base, trampoline, guard, s.tasks[t], s.waiting[t]);
      }
      assert t < n ==> s.Alive(t);
    }
    forall t: nat, u: nat | s'.Alive(t) && s'.Alive(u) && t != u
      ensures Separate(s'.tasks[t], s'.tasks[u])
    {
      assert t < n ==> s.Alive(t) && OutsideOf(s.tasks[t], base) && s.tasks[t].Shaped();
      assert u < n ==> s.Alive(u) && OutsideOf(s.tasks[u], base) && s.tasks[u].Shaped();
    }
  }

  // ---------- every step, every run

  lemma {:induction false} WorkKeepsInv(s: System, memory: Memory, registers: Registers)
    requires Inv(s) && Step(s, Work(memory, registers)).Some?
    ensures Inv(Step(s, Work(memory, registers)).value)
  {
    forall t: nat | s.Alive(t) && t != s.current
      ensures Suspended(memory, s.tasks[t], s.waiting[t])
    {
      forall a: nat | s.tasks[t].Owns(a)
        ensures Read(memory, a) == Read(s.memory, a)
      {
        SeparateOwns(s.tasks[t], s.tasks[s.current], a);
      }
      SuspendedKept(s.memory, memory, s.tasks[t], s.waiting[t]);
    }
  }

  lemma {:induction false} ExitKeepsInv(s: System)
    requires Inv(s) && Step(s, Exit).Some?
    ensures Inv(Step(s, Exit).value)
  {
    var s' := Step(s, Exit).value;
    forall t: nat | s'.Alive(t)
      ensures s.Alive(t) && SamePlace(s.tasks[t], s'.tasks[t])
    {
    }
    PlacesKept(s, s');
  }

  lemma {:induction false} StepKeepsInv(s: System, e: Event)
    requires Inv(s) && Step(s, e).Some?
    ensures Inv(Step(s, e).value)
  {
    match e
    case Work(memory, registers) => WorkKeepsInv(s, memory, registers);
    case Switch(next, returnAddress) => SwitchResumes(s, next, returnAddress);
    case Create(base, trampoline, guard) => CreateKeepsInv(s, base, trampoline, guard);
    case Exit => ExitKeepsInv(s);
    case Reap(t) =>
      var s' := Step(s, e).value;
      assert forall u: nat :: s'.Alive(u) ==> s.Alive(u);
  }

  lemma {:induction false} ReapEffect(s: System, t: nat)
    requires Inv(s) && Step(s, Reap(t)).Some?
    ensures s.Alive(t) && t != s.current && s.tasks[t].state == Zombie
    ensures Step(s, Reap(t)) == Some(s.(gone := s.gone + {t}))
  {
  }

  ghost predicate PlacesStay(s: System, s': System) {
    && |s'.tasks| == |s.tasks| && s'.gone == s.gone
    && (forall t :: 0 <= t < |s.tasks| ==> SamePlace(s.tasks[t], s'.tasks[t]))
    && (|s.tasks| > 0 && s.tasks[0].state != Zombie ==> s'.tasks[0].state != Zombie)
  }

  /**
   What the steps other than creating and reaping leave alone: who is there, where they live, and the
   boot task's life.
   */
  lemma {:induction false} StepKeepsPlaces(s: System, e: Event)
    requires Inv(s) && Step(s, e).Some? && !e.Create? && !e.Reap?
    ensures PlacesStay(s, Step(s, e).value)
  {
  }

  ghost function Run(s: System, events: seq<Event>): Option<System>
    requires Inv(s)
    decreases |events|
  {
    if events == [] then Some(s) else
      var next := Step(s, events[0]);
      if next.None? then None else
        StepKeepsInv(s, events[0]);
        Run(next.value, events[1..])
  }

  /** The state in which tasking begins: the boot task runs alone, on the boot stack. */
  function Booted(memory: Memory, registers: Registers, boot: Task): System {
    System(memory, registers, [boot], {}, 0, boot.stackTop, 1, [Resumption(registers, 0)])
  }

  /** The descriptor of the boot task as the demonstration sets it up: its own stack, process number 0, running. */
  predicate BootTask(task: Task) {
    task.Shaped() && task.state == Running && task.pid == 0
  }

  ghost predicate Start(s: System) {
    exists boot: Task :: BootTask(boot) && OnStack(boot, s.registers.rsp) && s == Booted(s.memory, s.registers, boot)
  }

  lemma {:induction false} StartKeepsInv(s: System)
    requires Start(s)
    ensures Inv(s)
  {
  }

  /**
   Every reachable state: no task but the current one is running, RSP0 is the current task's stack
   top, the stack pointer is on the current task's stack, and every suspended task's frame is whole.
   */
  lemma {:induction false} RunKeepsInv(s: System, events: seq<Event>)
    requires Inv(s) && Run(s, events).Some?
    ensures Inv(Run(s, events).value)
    decreases |events|
  {
    if events == [] {
    } else {
      StepKeepsInv(s, events[0]);
      RunKeepsInv(Step(s, events[0]).value, events[1..]);
    }
  }

  /** From the start, over every run, the invariant holds. */
  lemma {:induction false} ReachableKeepsInv(s: System, events: seq<Event>)
    requires Start(s)
    ensures Inv(s)
    ensures Run(s, events).Some? ==> Inv(Run(s, events).value)
  {
    StartKeepsInv(s);
    if Run(s, events).Some? { RunKeepsInv(s, events); }
  }

  // ---------- resumption over whole runs

  /** Nobody switches to task t or gives its page back. */
  predicate LeavesAsleep(e: Event, t: nat) {
    match e
    case Switch(next, _) => next != t
    case Reap(u) => u != t
    case _ => true
  }

  predicate AllLeaveAsleep(events: seq<Event>, t: nat) {
    forall i :: 0 <= i < |events| ==> LeavesAsleep(events[i], t)
  }

  lemma {:induction false} StaysAsleep(s: System, e: Event, t: nat)
    requires Inv(s) && Step(s, e).Some? && s.Alive(t) && t != s.current && LeavesAsleep(e, t)
    ensures var s' := Step(s, e).value;
      s'.Alive(t) && t != s'.current && s'.waiting[t] == s.waiting[t] && SamePlace(s.tasks[t], s'.tasks[t])
  {
    StepKeepsInv(s, e);
  }

  lemma {:induction false} SleepsThroughRun(s: System, events: seq<Event>, t: nat)
    requires Inv(s) && Run(s, events).Some? && s.Alive(t) && t != s.current && AllLeaveAsleep(events, t)
    ensures var s' := Run(s, events).value;
      Inv(s') && s'.Alive(t) && t != s'.current && s'.waiting[t] == s.waiting[t] && SamePlace(s.tasks[t], s'.tasks[t])
    decreases |events|
  {
    if events == [] {
    } else {
      StepKeepsInv(s, events[0]);
      StaysAsleep(s, events[0], t);
      SleepsThroughRun(Step(s, events[0]).value, events[1..], t);
    }
  }

  /** Where the return at the end of the switch routine goes. */
  function Target(s: System, next: nat, returnAddress: Word): Word
    requires s.current < |s.tasks| == |s.waiting| && next < |s.tasks| && 56 <= s.registers.rsp < TWO64
  {
    var s' := Switched(s, next, returnAddress);
    Loaded(s'.memory, Read(s'.memory, s.tasks[next].context)).rip
  }

  /** What `assert_current_stack` asserts after every hand-over. */
  predicate StackChecksOut(s: System) {
    && s.current < |s.tasks|
    && s.tasks[s.current].stackBottom <= s.registers.rsp < s.tasks[s.current].stackTop
    && s.rsp0 == s.tasks[s.current].stackTop
    && s.tasks[s.current].state == Running
  }

  /** The task switched to goes on as it was suspended, and the stack assertions hold. */
  lemma {:induction false} WakesUp(before: System, t: nat, other: Word)
    requires Inv(before) && Step(before, Switch(t, other)).Some?
    ensures var after := Switched(before, t, other);
      && Target(before, t, other) == before.waiting[t].rip
      && after.registers == before.waiting[t].registers
      && after.current == t && StackChecksOut(after)
  {
    SwitchResumes(before, t, other);
  }

  /**
   A task calls the switch; anything may happen among the others, with any number of switches,
   new threads, exits and freed pages; when the task is finally switched back to, it sees the
   registers, the stack pointer and the return address of its call.
   */
  lemma {:induction false} ResumesExactly(
    s: System, next: nat, returnAddress: Word, s1: System, events: seq<Event>, before: System, other: Word)
    requires Inv(s) && Step(s, Switch(next, returnAddress)) == Some(s1)
    requires Inv(s1) && Run(s1, events) == Some(before) && AllLeaveAsleep(events, s.current)
    requires Inv(before) && Step(before, Switch(s.current, other)).Some?
    ensures var after := Switched(before, s.current, other);
      && after.current == s.current
      && after.registers == s.registers
      && Target(before, s.current, other) == returnAddress
      && after.rsp0 == s.rsp0
      && StackChecksOut(after)
  {
    SleepsThroughRun(s1, events, s.current);
    WakesUp(before, s.current, other);
  }

  lemma {:induction false} TopMinusEight(base: nat)
    requires base % 16 == 0
    ensures (base + REGION - 8) % 16 == 8
  {
    SameRemainder(base / 16 + 0x7ff, 16, 8);
  }

  lemma {:induction false} CreatedWaits(s: System, base: nat, trampoline: Word, guard: Word)
    requires Inv(s) && Step(s, Create(base, trampoline, guard)).Some?
    ensures var s1 := Step(s, Create(base, trampoline, guard)).value;
      && s1.Alive(|s.tasks|) && |s.tasks| != s1.current
      && s1.waiting[|s.tasks|] == Resumption(Registers(0, 0, 0, 0, 0, 0, base + REGION - 8), trampoline)
    ensures base % 16 == 0
  {
  }

  /**
   A fresh thread, first switched to after any run that leaves it asleep, enters the trampoline with
   RSP = top - 8.
   */
  lemma {:induction false} FirstEntry(
    s: System, base: nat, trampoline: Word, guard: Word, s1: System, events: seq<Event>, before: System, other: Word)
    requires Inv(s) && Step(s, Create(base, trampoline, guard)) == Some(s1)
    requires Inv(s1) && Run(s1, events) == Some(before) && AllLeaveAsleep(events, |s.tasks|)
    requires Inv(before) && Step(before, Switch(|s.tasks|, other)).Some?
    ensures var after := Switched(before, |s.tasks|, other);
      && Target(before, |s.tasks|, other) == trampoline
      && after.registers == Registers(0, 0, 0, 0, 0, 0, base + REGION - 8)
      && after.registers.rsp % 16 == 8
      && StackChecksOut(after)
  {
    CreatedWaits(s, base, trampoline, guard);
    SleepsThroughRun(s1, events, |s.tasks|);
    WakesUp(before, |s.tasks|, other);
    TopMinusEight(base);
  }

  /** Task t has exited and handed over. */
  predicate Over(s: System, t: nat) {
    t < |s.tasks| && t != s.current && (t in s.gone || s.tasks[t].state == Zombie)
  }

  lemma {:induction false} StaysOver(s: System, e: Event, t: nat)
    requires Inv(s) && Step(s, e).Some? && Over(s, t)
    ensures Over(Step(s, e).value, t)
  {
  }

  /** A task that has exited and handed over is never current again, in any run. */
  lemma {:induction false} ZombieNeverRuns(s: System, events: seq<Event>, t: nat)
    requires Inv(s) && Run(s, events).Some? && Over(s, t)
    ensures Over(Run(s, events).value, t)
    decreases |events|
  {
    if |events| > 0 {
      StepKeepsInv(s, events[0]);
      StaysOver(s, events[0], t);
      ZombieNeverRuns(Step(s, events[0]).value, events[1..], t);
    }
  }

  /** A page is given back only by a running task that stands on a different stack; a finished task never runs again. */
  lemma {:induction false} ReapedElsewhere(s: System, t: nat)
    requires Inv(s) && Step(s, Reap(t)).Some?
    ensures !s.tasks[t].InStack(s.registers.rsp) && s.rsp0 != s.tasks[t].stackTop
    ensures forall next: nat, a: Word :: Step(s, Switch(next, a)).Some? ==> next != t
  {
    assert Separate(s.tasks[t], s.tasks[s.current]) && s.tasks[t].Shaped() && s.tasks[s.current].Shaped();
  }

  // ---------- states, frames and tables, step by step

  /** When a hand-over is allowed. */
  lemma {:induction false} SwitchAllowed(s: System, next: nat, returnAddress: Word)
    requires Inv(s)
    ensures Step(s, Switch(next, returnAddress)).Some? <==>
      && next < |s.tasks| && next !in s.gone && next != s.current && s.tasks[next].state == Ready
      && s.tasks[next].pageTable == s.tasks[s.current].pageTable
      && s.registers.rsp >= s.tasks[s.current].stackBottom + 56
  {
  }

  /**
   Who is what after a hand-over: a running caller is ready again, a finished one stays finished, third
   tasks are as they were.
   */
  lemma {:induction false} SwitchStates(s: System, next: nat, returnAddress: Word, s': System)
    requires Inv(s) && Step(s, Switch(next, returnAddress)) == Some(s')
    ensures |s'.tasks| == |s.tasks| && s'.current == next && s'.rsp0 == s.tasks[next].stackTop
    ensures s'.gone == s.gone && s'.nextPid == s.nextPid
    ensures s'.tasks[next] == s.tasks[next].(state := Running)
    ensures s.tasks[s.current].state == Running ==> s'.tasks[s.current] == s.tasks[s.current].(state := Ready)
    ensures s.tasks[s.current].state == Zombie ==> s'.tasks[s.current] == s.tasks[s.current]
    ensures forall t: nat :: t < |s.tasks| && t != next && t != s.current ==> s'.tasks[t] == s.tasks[t]
  {
  }

  /** A task is finished only by its own exit. */
  lemma {:induction false} OnlyExitFinishes(s: System, e: Event, s': System, t: nat)
    requires Inv(s) && Step(s, e) == Some(s') && t < |s'.tasks| && s'.tasks[t].state == Zombie
    ensures t < |s.tasks|
    ensures s.tasks[t].state == Zombie || (e.Exit? && t == s.current && t != 0 && s.tasks[t].state == Running)
  {
  }

  /** What exiting and giving back a page do. */
  lemma {:induction false} ExitAndReap(s: System, t: nat)
    requires Inv(s)
    ensures Step(s, Exit).Some? <==> s.tasks[s.current].state == Running && s.current != 0
    ensures Step(s, Exit).Some? ==>
      Step(s, Exit).value == s.(tasks := s.tasks[s.current := s.tasks[s.current].(state := Zombie)])
    ensures Step(s, Reap(t)).Some? <==>
      && t < |s.tasks| && t !in s.gone && t != s.current && s.tasks[t].state == Zombie
      && s.tasks[s.current].state == Running
    ensures Step(s, Reap(t)).Some? ==> Step(s, Reap(t)).value == s.(gone := s.gone + {t})
  {
  }

  /** The call leaves these words, from the return address down; nothing else is written but the context. */
  lemma {:induction false} SavedWords(memory: Memory, r: Registers, returnAddress: Word, context: nat)
    requires 56 <= r.rsp < TWO64 && !(r.rsp - 56 <= context < r.rsp)
    ensures var saved := CallSaved(memory, r, returnAddress, context);
      && Read(saved, r.rsp - 8) == returnAddress && Read(saved, r.rsp - 16) == r.rbp && Read(saved, r.rsp - 24) == r.rbx
      && Read(saved, r.rsp - 32) == r.r12 && Read(saved, r.rsp - 40) == r.r13 && Read(saved, r.rsp - 48) == r.r14
      && Read(saved, r.rsp - 56) == r.r15 && Read(saved, context) == r.rsp - 56
      && forall a: nat :: a != context && !(r.rsp - 56 <= a < r.rsp) ==> Read(saved, a) == Read(memory, a)
  {
  }

  /** The descriptor, canary and first frame of a new thread; everything else is as it was. */
  lemma {:induction false} CreatedThread(s: System, base: nat, trampoline: Word, guard: Word, s': System)
    requires Inv(s) && Step(s, Create(base, trampoline, guard)) == Some(s')
    ensures s'.tasks ==
      s.tasks + [Task(s.nextPid, base, base + 0x1008, base + 0x8000, s.tasks[s.current].pageTable, Ready)]
    ensures s'.nextPid == s.nextPid + 1 && s'.current == s.current && s'.gone == s.gone
    ensures s'.registers == s.registers && s'.rsp0 == s.rsp0
    ensures Read(s'.memory, base) == base + 0x7FC0 && Read(s'.memory, base + 0x1000) == 0x4d49_4b4f_5354_414b
    ensures Read(s'.memory, base + 0x7FF0) == trampoline && Read(s'.memory, base + 0x7FF8) == guard
    ensures forall i :: 0 <= i < 6 ==> Read(s'.memory, base + 0x7FC0 + 8 * i) == 0
    ensures forall a: nat :: !(base <= a < base + 0x8000) ==> Read(s'.memory, a) == Read(s.memory, a)
  {
    FirstFrameReads(s.memory, base, trampoline, guard);
    var memory := FirstFrame(s.memory, base, trampoline, guard);
    forall i | 0 <= i < 6
      ensures Read(memory, base + 0x7FC0 + 8 * i) == 0
    {
      assert i == 0 || i == 1 || i == 2 || i == 3 || i == 4 || i == 5;
    }
  }

  /** All tasks use the one set of page tables, and process numbers are used once. */
  ghost predicate Numbered(s: System) {
    && s.current < |s.tasks|
    && (forall t :: 0 <= t < |s.tasks| ==> s.tasks[t].pid < s.nextPid && s.tasks[t].pageTable == s.tasks[0].pageTable)
    && (forall t, u :: 0 <= t < u < |s.tasks| ==> s.tasks[t].pid != s.tasks[u].pid)
  }

  lemma {:induction false} StepNumbers(s: System, e: Event)
    requires Inv(s) && Numbered(s) && Step(s, e).Some?
    ensures Numbered(Step(s, e).value)
  {
    match e
    case Switch(next, returnAddress) => SwitchStates(s, next, returnAddress, Step(s, e).value);
    case _ =>
  }

  lemma {:induction false} RunNumbers(s: System, events: seq<Event>)
    requires Inv(s) && Numbered(s) && Run(s, events).Some?
    ensures Numbered(Run(s, events).value)
    decreases |events|
  {
    if events == [] {
    } else {
      StepKeepsInv(s, events[0]);
      StepNumbers(s, events[0]);
      RunNumbers(Step(s, events[0]).value, events[1..]);
    }
  }

  lemma {:induction false} StaysReady(s: System, e: Event, t: nat)
    requires Inv(s) && Step(s, e).Some? && s.Alive(t) && t != s.current && LeavesAsleep(e, t)
    requires s.tasks[t].state == Ready
    ensures t < |Step(s, e).value.tasks| && Step(s, e).value.tasks[t].state == Ready
  {
    match e
    case Switch(next, returnAddress) => SwitchStates(s, next, returnAddress, Step(s, e).value);
    case _ =>
  }

  lemma {:induction false} ReadyThroughRun(s: System, events: seq<Event>, t: nat)
    requires Inv(s) && Run(s, events).Some? && s.Alive(t) && t != s.current && AllLeaveAsleep(events, t)
    requires s.tasks[t].state == Ready
    ensures t < |Run(s, events).value.tasks| && Run(s, events).value.tasks[t].state == Ready
    decreases |events|
  {
    if events == [] {
    } else {
      StepKeepsInv(s, events[0]);
      StaysAsleep(s, events[0], t);
      StaysReady(s, events[0], t);
      ReadyThroughRun(Step(s, events[0]).value, events[1..], t);
    }
  }

  /**
   A task that yields can always be resumed: after any run in which nobody resumes it, the task that is
   current then may switch back to it, provided it has the 56 bytes of stack that a call of the switch takes.
   */
  lemma {:induction false} YieldedCanResume(
    s: System, next: nat, returnAddress: Word, s1: System, events: seq<Event>, before: System, other: Word)
    requires Inv(s) && Numbered(s) && s.tasks[s.current].state == Running
    requires Step(s, Switch(next, returnAddress)) == Some(s1)
    requires Inv(s1) && Run(s1, events) == Some(before) && AllLeaveAsleep(events, s.current)
    ensures Inv(before) && s.current < |before.tasks| && before.tasks[s.current].state == Ready
    ensures Step(before, Switch(s.current, other)).Some? <==>
      before.registers.rsp >= before.tasks[before.current].stackBottom + 56
  {
    SwitchStates(s, next, returnAddress, s1);
    StepNumbers(s, Switch(next, returnAddress));
    RunNumbers(s1, events);
    ReadyThroughRun(s1, events, s.current);
    SleepsThroughRun(s1, events, s.current);
    SwitchAllowed(before, s.current, other);
  }

  /** From the start of tasking, every reachable state numbers its tasks and shares the page tables. */
  lemma {:induction false} ReachableIsNumbered(s: System, events: seq<Event>)
    requires Start(s) && Inv(s) && Run(s, events).Some?
    ensures Numbered(Run(s, events).value)
  {
    RunNumbers(s, events);
  }

  // ---------- the machine

  class Machine {
    var memory: Memory
    var rbp: Word
    var rbx: Word
    var r12: Word
    var r13: Word
    var r14: Word
    var r15: Word
    var rsp: nat
    var tasks: seq<Task>
    var current: nat
    var rsp0: nat       // TSS.RSP0
    var nextPid: nat
    ghost var gone: set<nat>
    ghost var waiting: seq<Resumption>

    ghost function Regs(): Registers
      reads this
    {
      Registers(rbp, rbx, r12, r13, r14, r15, rsp)
    }

    ghost function View(): System
      reads this
    {
      System(memory, Regs(), tasks, gone, current, rsp0, nextPid, waiting)
    }

    method Push(v: Word)
      requires 8 <= rsp
      modifies `memory, `rsp
      ensures rsp == old(rsp) - 8 && memory == old(memory)[rsp := v]
    {
      rsp := rsp - 8;
      memory := memory[rsp := v];
    }

    method Pop() returns (v: Word)
      modifies `rsp
      ensures v == Read(memory, old(rsp)) && rsp == old(rsp) + 8
    {
      v := Read(memory, rsp);
      rsp := rsp + 8;
    }

    /** The first half: six registers go to the stack. */
    method PushAll()
      requires 48 <= rsp
      modifies `memory, `rsp
      ensures rsp == old(rsp) - 48
      ensures memory == PushedAll(old(memory), old(Regs()))
    {
      Push(rbp);
      Push(rbx);
      Push(r12);
      Push(r13);
      Push(r14);
      Push(r15);
    }

    method PopRest() returns (rip: Word)
      modifies `rsp, `rbp, `rbx, `r12
      ensures r12 == Read(memory, old(rsp)) && rbx == Read(memory, old(rsp) + 8) && rbp == Read(memory, old(rsp) + 16)
      ensures rip == Read(memory, old(rsp) + 24) && rsp == old(rsp) + 32
    {
      r12 := Pop();
      rbx := Pop();
      rbp := Pop();
      rip := Pop();
    }

    /** The second half: six registers and the return address come off the stack. */
    method PopAll() returns (rip: Word)
      modifies `rsp, `rbp, `rbx, `r12, `r13, `r14, `r15
      ensures Resumption(Regs(), rip) == Loaded(memory, old(rsp))
    {
      ghost var frame := rsp;
      r15 := Pop();
      r14 := Pop();
      r13 := Pop();
      assert r15 == Read(memory, frame) && r14 == Read(memory, frame + 8) && r13 == Read(memory, frame + 16);
      rip := PopRest();
      assert r15 == Read(memory, frame) && rsp == frame + 56;
    }

    /** `task_context_switch`: RDI and RSI point to the two contexts. */
    method ContextSwitch(rdi: nat, rsi: nat) returns (rip: Word)
      requires 48 <= rsp < TWO64
      modifies `memory, `rsp, `rbp, `rbx, `r12, `r13, `r14, `r15
      ensures memory == Saved(old(memory), old(Regs()), rdi)
      ensures Resumption(Regs(), rip) == Loaded(memory, Read(memory, rsi))
    {
      PushAll();
      memory := memory[rdi := rsp];
      rsp := Read(memory, rsi);
      rip := PopAll();
    }

    /** The CALL that enters the routine leaves its return address on the stack. */
    method CallSwitch(returnAddress: Word, rdi: nat, rsi: nat) returns (rip: Word)
      requires 56 <= rsp < TWO64
      modifies `memory, `rsp, `rbp, `rbx, `r12, `r13, `r14, `r15
      ensures memory == CallSaved(old(memory), old(Regs()), returnAddress, rdi)
      ensures Resumption(Regs(), rip) == Loaded(memory, Read(memory, rsi))
    {
      Push(returnAddress);
      rip := ContextSwitch(rdi, rsi);
    }

    /** The bookkeeping of `switch_to`: states, RSP0, CURRENT. */
    method HandOver(next: nat)
      requires current < |tasks| && next < |tasks| && next != current
      modifies `tasks, `rsp0, `current
      ensures tasks == HandedOver(old(tasks), old(current), next)
      ensures rsp0 == old(tasks)[next].stackTop && current == next
    {
      if tasks[current].state == Running {
        tasks := tasks[current := tasks[current].(state := Ready)];
      }
      tasks := tasks[next := tasks[next].(state := Running)];
      rsp0 := tasks[next].stackTop;
      current := next;
    }

    /** The bookkeeping of `switch_to`, and the history of how the caller left. */
    method Leave(next: nat, returnAddress: Word)
      requires current < |tasks| == |waiting| && next < |tasks| && next != current
      modifies `tasks, `rsp0, `current, `waiting
      ensures View() ==
        old(View()).(tasks := HandedOver(old(tasks), old(current), next), rsp0 := old(tasks)[next].stackTop,
                     current := next, waiting := old(waiting)[old(current) := Resumption(Regs(), returnAddress)])
    {
      waiting := waiting[current := Resumption(Regs(), returnAddress)];
      HandOver(next);
    }

    /** Past the assertions: the bookkeeping, then the switch itself. */
    method Exchange(next: nat, returnAddress: Word) returns (rip: Word)
      requires current < |tasks| == |waiting| && next < |tasks| && next != current && 56 <= rsp < TWO64
      modifies this
      ensures View() == Switched(old(View()), next, returnAddress) && rip == Target(old(View()), next, returnAddress)
    {
      var previous, context := tasks[current].context, tasks[next].context;
      Leave(next, returnAddress);
      rip := CallSwitch(returnAddress, previous, context);
    }

    /** `switch_to`; a failed assertion changes nothing. */
    method SwitchTo(next: nat, returnAddress: Word) returns (ok: bool, rip: Word)
      requires current < |tasks| == |waiting| && next !in gone && 56 <= rsp < TWO64
      modifies this
      ensures ok == CanSwitch(old(View()), next)
      ensures ok ==>
        View() == Switched(old(View()), next, returnAddress) && rip == Target(old(View()), next, returnAddress)
      ensures !ok ==> View() == old(View())
    {
      rip := 0;
      ok := next < |tasks| && next != current && tasks[next].state == Ready;
      ok := ok && tasks[current].pageTable == tasks[next].pageTable && tasks[current].state != Ready;
      if ok {
        rip := Exchange(next, returnAddress);
      }
    }

    /** The eight words of the first frame. */
    method StoreFrame(top: nat, trampoline: Word, guard: Word)
      requires top >= 64
      modifies `memory
      ensures memory ==
        old(memory)[top - 64 := 0][top - 56 := 0][top - 48 := 0][top - 40 := 0][top - 32 := 0][top - 24 := 0]
        [top - 16 := trampoline][top - 8 := guard]
    {
      memory := memory[top - 64 := 0][top - 56 := 0][top - 48 := 0][top - 40 := 0][top - 32 := 0][top - 24 := 0];
      memory := memory[top - 16 := trampoline][top - 8 := guard];
    }

    /** `create_kernel_thread` in a page that is no task's; None is the PID overflow. */
    method CreateKernelThread(base: nat, trampoline: Word, guard: Word) returns (ok: bool)
      requires Inv(View()) && FreshPage(View(), base)
      modifies this
      ensures ok == Step(old(View()), Create(base, trampoline, guard)).Some?
      ensures View() == if ok then Step(old(View()), Create(base, trampoline, guard)).value else old(View())
    {
      if nextPid + 1 >= TWO64 {
        return false;
      }
      var top := base + REGION;
      var task := Task(nextPid, base, base + DESCRIPTOR + 8, top, tasks[current].pageTable, Ready);
      nextPid := nextPid + 1;
      memory := memory[base := top - 64];
      memory := memory[base + DESCRIPTOR := CANARY];
      StoreFrame(top, trampoline, guard);
      assert memory == FirstFrame(old(memory), base, trampoline, guard);
      tasks := tasks + [task];
      waiting := waiting + [Resumption(Registers(0, 0, 0, 0, 0, 0, top - 8), trampoline)];
      return true;
    }
  }
}
