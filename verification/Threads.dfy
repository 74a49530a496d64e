/**
 Threads and their pages together: every thread lives in a page that the allocator granted for it,
 and gives that page back only after it has finished.
 */
module Threads {
  import opened Prelude
  import opened PageRuns
  import PageModel
  import MemoryInit
  import opened PageAllocator
  import PH = PageHistory
  import TS = TaskSwitch

  const PAGE_OFFSET: nat := MemoryInit.PAGE_OFFSET
  const PAGE_2M: nat := PageModel.PAGE_2M

  /**
   Scheduler and page bookkeeping. `backing` is the token each thread's creator keeps; the pages
   below `reserved` hold the kernel image, the boot stack among it.
   */
  datatype Kernel = Kernel(sched: TS.System, pages: PH.System, backing: map<nat, PageRun>, reserved: nat)
  {
    predicate Thread(t: nat) { t != 0 && sched.Alive(t) }
  }

  /** The address at which the kernel sees a page. */
  function Base(run: PageRun): nat {
    PAGE_OFFSET + run.first * PAGE_2M
  }

  predicate LivesIn(task: TS.Task, run: PageRun) {
    && run.count == 1 && run.End() * PAGE_2M <= PageModel.DIRECT_RAM_END
    && task.context == Base(run)
    && task.stackBottom == Base(run) + TS.DESCRIPTOR + 8 && task.stackTop == Base(run) + TS.REGION
  }

  /** Descriptor and stack of the boot task are part of the kernel image. */
  predicate InKernel(task: TS.Task, reserved: nat) {
    && task.context < PAGE_OFFSET + reserved * PAGE_2M
    && task.stackTop <= PAGE_OFFSET + reserved * PAGE_2M
  }

  /** Thread t's page is held, and it lives there. */
  ghost predicate Housed(k: Kernel, t: nat)
    requires t < |k.sched.tasks|
  {
    t in k.backing && k.backing[t] in k.pages.live && LivesIn(k.sched.tasks[t], k.backing[t])
  }

  /** Every thread has a page of its own, and there are no tokens but theirs. */
  ghost predicate AllHoused(k: Kernel) {
    && (forall t: nat :: k.Thread(t) ==> Housed(k, t))
    && (forall t: nat, u: nat :: k.Thread(t) && k.Thread(u) && t != u ==> k.backing[t] != k.backing[u])
    && (forall t: nat :: t in k.backing ==> k.Thread(t))
  }

  /** The kernel image is reserved, and the boot task never leaves it. */
  ghost predicate Image(k: Kernel) {
    && (forall p: nat :: p < k.reserved ==> PH.Reserved(k.pages.memory, p))
    && k.sched.Alive(0) && k.sched.tasks[0].state != TS.Zombie && InKernel(k.sched.tasks[0], k.reserved)
  }

  ghost predicate Inv(k: Kernel) {
    TS.Inv(k.sched) && PH.Inv(k.pages) && Image(k) && AllHoused(k)
  }

  // ---------- what can happen

  datatype Event =
    | Work(memory: TS.Memory, registers: TS.Registers)
    | Switch(next: nat, returnAddress: TS.Word)
    | Spawn(trampoline: TS.Word, guard: TS.Word)      // a page is requested, a thread is created in it
    | Exit
    | Reap(task: nat)                                 // a finished thread's page is given back
    | Request(area: AllocationArea, count: nat)       // anybody else takes pages
    | Return(run: PageRun)                            // and gives back what is not a thread's

  ghost function SchedStep(k: Kernel, e: TS.Event): Option<Kernel>
    requires Inv(k)
  {
    match TS.Step(k.sched, e)
    case None => None
    case Some(sched) => Some(k.(sched := sched))
  }

  /** `free_pages`; None is a failed assertion of `release`, or a token nobody holds. */
  ghost function GiveBack(pages: PH.System, run: PageRun): Option<PH.System>
    requires PH.Inv(pages)
  {
    if run in pages.live then
      var i: nat :| i < |pages.live| && pages.live[i] == run;
      PH.Step(pages, PH.GiveBack(i))
    else None
  }

  ghost function SpawnStep(k: Kernel, trampoline: TS.Word, guard: TS.Word): Option<Kernel>
    requires Inv(k)
  {
    match Allocate(k.pages.memory, Mapped, 1).0
    case Err(_) => None
    case Ok(run) =>
      match TS.Step(k.sched, TS.Create(Base(run), trampoline, guard))
      case None => None
      case Some(sched) =>
        Some(k.(sched := sched, pages := PH.Step(k.pages, PH.Request(Mapped, 1)).value,
                backing := k.backing[|k.sched.tasks| := run]))
  }

  ghost function ReapStep(k: Kernel, t: nat): Option<Kernel>
    requires Inv(k)
  {
    if !k.Thread(t) then None else
      match TS.Step(k.sched, TS.Reap(t))
      case None => None
      case Some(sched) =>
        match GiveBack(k.pages, k.backing[t])
        case None => None
        case Some(pages) => Some(k.(sched := sched, pages := pages, backing := k.backing - {t}))
  }

  /** None: an assertion fails, or the step is not one that can be taken. */
  ghost function Step(k: Kernel, e: Event): Option<Kernel>
    requires Inv(k)
  {
    match e
    case Work(memory, registers) => SchedStep(k, TS.Work(memory, registers))
    case Switch(next, returnAddress) => SchedStep(k, TS.Switch(next, returnAddress))
    case Exit => SchedStep(k, TS.Exit)
    case Spawn(trampoline, guard) => SpawnStep(k, trampoline, guard)
    case Reap(t) => ReapStep(k, t)
    case Request(area, count) => Some(k.(pages := PH.Step(k.pages, PH.Request(area, count)).value))
    case Return(run) =>
      if run in k.backing.Values then None else
        match GiveBack(k.pages, run)
        case None => None
        case Some(pages) => Some(k.(pages := pages))
  }

  // ---------- a granted page is nobody's

  lemma {:induction false} TokenIsLive(pages: PH.System, run: PageRun)
    requires PH.Inv(pages) && run in pages.live
    ensures Live(pages.memory, run)
  {
    var i :| 0 <= i < |pages.live| && pages.live[i] == run;
    assert Live(pages.memory, pages.live[i]);
  }

  lemma {:induction false} ReservedAt(m: PageModel.Memory, reserved: nat, p: nat)
    requires p < reserved && forall q: nat :: q < reserved ==> PH.Reserved(m, q)
    ensures p < |m.pages| && PageModel.KernelInit in m.pages[p].attribute
  {
    assert PH.Reserved(m, p);
  }

  /** What is held lies above what is reserved. */
  lemma {:induction false} LiveAboveReserved(m: PageModel.Memory, run: PageRun, reserved: nat)
    requires PageModel.Shape(m) && Live(m, run) && forall p: nat :: p < reserved ==> PH.Reserved(m, p)
    ensures reserved <= run.first
  {
    if run.first < reserved { ReservedAt(m, reserved, run.first); }
  }

  /** A thread's page is held, and lies above the kernel image. */
  lemma {:induction false} HouseIsHeld(k: Kernel, t: nat)
    requires Inv(k) && k.Thread(t)
    ensures Housed(k, t) && Live(k.pages.memory, k.backing[t]) && k.reserved <= k.backing[t].first
  {
    assert Housed(k, t);
    TokenIsLive(k.pages, k.backing[t]);
    LiveAboveReserved(k.pages.memory, k.backing[t], k.reserved);
  }

  /** Different tokens are runs without a common page. */
  lemma {:induction false} TokensApart(pages: PH.System, a: PageRun, b: PageRun)
    requires PH.Inv(pages) && a in pages.live && b in pages.live && a != b
    ensures Apart(a, b)
  {
    var i :| 0 <= i < |pages.live| && pages.live[i] == a;
    var j :| 0 <= j < |pages.live| && pages.live[j] == b;
    if i < j { assert Apart(pages.live[i], pages.live[j]); }
    if j < i { assert Apart(pages.live[j], pages.live[i]); }
  }

  lemma {:induction false} BaseIsPage(run: PageRun)
    requires run.count == 1 && run.End() * PAGE_2M <= PageModel.DIRECT_RAM_END
    ensures Base(run) % 16 == 0 && Base(run) + TS.REGION < TWO64
  {
    assert Base(run) == 16 * (PAGE_OFFSET / 16 + run.first * 0x2_0000);
  }

  lemma {:induction false} GrantedIsLow(m: PageModel.Memory)
    requires PageModel.Consistent(m) && Allocate(m, Mapped, 1).0.Ok?
    ensures var run := Allocate(m, Mapped, 1).0.value;
      run.count == 1 && run.End() * PAGE_2M <= PageModel.DIRECT_RAM_END
  {
    var z, first := GrantedPlace(m, Mapped, 1);
    assert Fits(m, Mapped, 1, z, first);
  }

  lemma {:induction false} GrantedAboveReserved(m: PageModel.Memory, m': PageModel.Memory, run: PageRun, reserved: nat)
    requires PageModel.Consistent(m) && Committed(m, m', run) && run.count > 0
    requires forall p: nat :: p < reserved ==> PH.Reserved(m, p)
    ensures reserved <= run.first
  {
    assert FreePage(m, run.first) && PageModel.PageAgrees(m, run.first);
    if run.first < reserved { ReservedAt(m, reserved, run.first); }
  }

  lemma {:induction false} GrantedApart(pages: PH.System, held: PageRun, run: PageRun, m': PageModel.Memory)
    requires PH.Inv(pages) && held in pages.live && Committed(pages.memory, m', run) && run.count == 1
    ensures Apart(held, run)
  {
    TokenIsLive(pages, held);
    PH.FreeApartFromLive(pages.memory, held, run);
  }

  lemma {:induction false} PagesApart(a: nat, b: nat)
    requires a != b
    ensures a * PAGE_2M + PAGE_2M <= b * PAGE_2M || b * PAGE_2M + PAGE_2M <= a * PAGE_2M
  {
  }

  /** A task that lives in one page is outside every other page. */
  lemma {:induction false} HousesApart(task: TS.Task, held: PageRun, run: PageRun)
    requires LivesIn(task, held) && run.count == 1 && Apart(held, run)
    ensures TS.OutsideOf(task, Base(run)) && held.first != run.first
  {
    PagesApart(held.first, run.first);
  }

  /** The page just granted for a thread is the page of no task: what creating a thread takes for granted. */
  lemma {:induction false} GrantedIsFresh(k: Kernel)
    requires Inv(k) && Allocate(k.pages.memory, Mapped, 1).0.Ok?
    ensures TS.FreshPage(k.sched, Base(Allocate(k.pages.memory, Mapped, 1).0.value))
  {
    var (result, m') := Allocate(k.pages.memory, Mapped, 1);
    var run := result.value;
    GrantedIsLow(k.pages.memory);
    BaseIsPage(run);
    AllocateCommits(k.pages.memory, Mapped, 1);
    GrantedAboveReserved(k.pages.memory, m', run, k.reserved);
    forall t: nat | k.sched.Alive(t)
      ensures TS.OutsideOf(k.sched.tasks[t], Base(run))
    {
      if t != 0 {
        assert Housed(k, t);
        GrantedApart(k.pages, k.backing[t], run, m');
        HousesApart(k.sched.tasks[t], k.backing[t], run);
      }
    }
  }

  /** Creating a thread fails only for want of a page or of a process number. */
  lemma {:induction false} SpawnSucceeds(k: Kernel, trampoline: TS.Word, guard: TS.Word)
    requires Inv(k)
    ensures Step(k, Spawn(trampoline, guard)).Some? <==>
      Allocate(k.pages.memory, Mapped, 1).0.Ok? && k.sched.nextPid + 1 < TWO64
  {
    if Allocate(k.pages.memory, Mapped, 1).0.Ok? { GrantedIsFresh(k); }
  }

  // ---------- every step keeps everybody housed

  lemma {:induction false} SchedKeeps(k: Kernel, sched: TS.System)
    requires Image(k) && AllHoused(k) && TS.PlacesStay(k.sched, sched)
    ensures Image(k.(sched := sched)) && AllHoused(k.(sched := sched))
  {
    var k' := k.(sched := sched);
    forall t: nat | k'.Thread(t)
      ensures Housed(k', t)
    {
      assert Housed(k, t) && TS.SamePlace(k.sched.tasks[t], sched.tasks[t]);
    }
    assert TS.SamePlace(k.sched.tasks[0], sched.tasks[0]);
  }

  /** Changes of the page bookkeeping that leave every thread its token. */
  lemma {:induction false} PagesKeep(k: Kernel, pages: PH.System)
    requires Image(k) && AllHoused(k) && PH.Untouched(k.pages.memory, pages.memory)
    requires forall t: nat :: k.Thread(t) ==> k.backing[t] in pages.live
    ensures Image(k.(pages := pages)) && AllHoused(k.(pages := pages))
  {
    var k' := k.(pages := pages);
    forall p: nat | p < k.reserved
      ensures PH.Reserved(pages.memory, p)
    {
      assert PH.Reserved(k.pages.memory, p);
    }
    forall t: nat | k'.Thread(t)
      ensures Housed(k', t)
    {
      assert Housed(k, t);
    }
  }

  lemma {:induction false} RequestKeeps(k: Kernel, area: AllocationArea, count: nat)
    requires Inv(k)
    ensures Inv(k.(pages := PH.Step(k.pages, PH.Request(area, count)).value))
  {
    PH.StepSafe(k.pages, PH.Request(area, count));
    var pages := PH.Step(k.pages, PH.Request(area, count)).value;
    forall t: nat | k.Thread(t)
      ensures k.backing[t] in pages.live
    {
      assert Housed(k, t);
    }
    PagesKeep(k, pages);
  }

  lemma {:induction false} OthersRemain(live: seq<PageRun>, i: nat, other: PageRun)
    requires i < |live| && other in live && other != live[i]
    ensures other in PH.Without(live, i)
  {
    var j :| 0 <= j < |live| && live[j] == other;
    assert PH.Without(live, i)[if j < i then j else j - 1] == other;
  }

  /** Giving back a held token never fails, and every other token stays. */
  lemma {:induction false} GiveBackWorks(pages: PH.System, run: PageRun)
    requires PH.Inv(pages) && run in pages.live
    ensures GiveBack(pages, run).Some? && Release(pages.memory, run) == Some(GiveBack(pages, run).value.memory)
    ensures PH.Inv(GiveBack(pages, run).value) && PH.Stock(GiveBack(pages, run).value) == PH.Stock(pages)
    ensures PH.Untouched(pages.memory, GiveBack(pages, run).value.memory)
  {
    var i: nat :| i < |pages.live| && pages.live[i] == run && GiveBack(pages, run) == PH.Step(pages, PH.GiveBack(i));
    PH.StepSafe(pages, PH.GiveBack(i));
  }

  lemma {:induction false} OtherTokensStay(pages: PH.System, run: PageRun, other: PageRun)
    requires PH.Inv(pages) && run in pages.live && other in pages.live && other != run
    ensures GiveBack(pages, run).Some? && other in GiveBack(pages, run).value.live
  {
    GiveBackWorks(pages, run);
    var i: nat :| i < |pages.live| && pages.live[i] == run && GiveBack(pages, run) == PH.Step(pages, PH.GiveBack(i));
    OthersRemain(pages.live, i, other);
  }

  lemma {:induction false} ReturnKeeps(k: Kernel, run: PageRun)
    requires Inv(k) && run in k.pages.live && run !in k.backing.Values
    ensures Inv(k.(pages := GiveBack(k.pages, run).value))
  {
    GiveBackWorks(k.pages, run);
    forall t: nat | k.Thread(t)
      ensures k.backing[t] in GiveBack(k.pages, run).value.live
    {
      assert Housed(k, t);
      assert k.backing[t] in k.backing.Values;
      OtherTokensStay(k.pages, run, k.backing[t]);
    }
    PagesKeep(k, GiveBack(k.pages, run).value);
  }

  /** One more thread in a page of its own, and the others as before. */
  lemma {:induction false} NewcomerHoused(k: Kernel, sched: TS.System, run: PageRun)
    requires AllHoused(k) && k.sched.current < |k.sched.tasks|
    requires forall t: nat :: t in k.sched.gone ==> t < |k.sched.tasks|
    requires sched.tasks == k.sched.tasks + [TS.NewTask(k.sched, Base(run))]
    requires sched.gone == k.sched.gone
    requires run in k.pages.live && run.count == 1 && run.End() * PAGE_2M <= PageModel.DIRECT_RAM_END
    requires forall t: nat :: k.Thread(t) ==> k.backing[t] != run
    ensures AllHoused(k.(sched := sched, backing := k.backing[|k.sched.tasks| := run]))
  {
    var k' := k.(sched := sched, backing := k.backing[|k.sched.tasks| := run]);
    forall t: nat | k'.Thread(t)
      ensures Housed(k', t)
    {
      if t != |k.sched.tasks| {
        assert k.Thread(t) && Housed(k, t);
      }
    }
  }

  lemma {:induction false} NewTokenIsNew(k: Kernel)
    requires Inv(k) && Allocate(k.pages.memory, Mapped, 1).0.Ok?
    ensures var run := Allocate(k.pages.memory, Mapped, 1).0.value;
      && run.count == 1 && run.End() * PAGE_2M <= PageModel.DIRECT_RAM_END
      && run in PH.Step(k.pages, PH.Request(Mapped, 1)).value.live
      && forall t: nat :: k.Thread(t) ==> k.backing[t] != run
  {
    GrantedIsLow(k.pages.memory);
    AllocateCommits(k.pages.memory, Mapped, 1);
    var (result, m') := Allocate(k.pages.memory, Mapped, 1);
    assert PH.Step(k.pages, PH.Request(Mapped, 1)).value.live == k.pages.live + [result.value];
    forall t: nat | k.Thread(t)
      ensures k.backing[t] != result.value
    {
      assert Housed(k, t);
      GrantedApart(k.pages, k.backing[t], result.value, m');
    }
  }

  lemma {:induction false} SpawnKeeps(k: Kernel, trampoline: TS.Word, guard: TS.Word)
    requires Inv(k) && SpawnStep(k, trampoline, guard).Some?
    ensures Inv(SpawnStep(k, trampoline, guard).value)
  {
    var run := Allocate(k.pages.memory, Mapped, 1).0.value;
    var create := TS.Create(Base(run), trampoline, guard);
    NewTokenIsNew(k);
    RequestKeeps(k, Mapped, 1);
    TS.StepKeepsInv(k.sched, create);
    NewcomerHoused(k.(pages := PH.Step(k.pages, PH.Request(Mapped, 1)).value), TS.Step(k.sched, create).value, run);
  }

  /** What reaping does: the thread is gone, its token is given back, the release is not refused. */
  lemma {:induction false} ReapWorks(k: Kernel, t: nat)
    requires Inv(k) && k.Thread(t) && TS.Step(k.sched, TS.Reap(t)).Some?
    ensures t in k.backing && k.backing[t] in k.pages.live && GiveBack(k.pages, k.backing[t]).Some?
    ensures ReapStep(k, t) == Some(k.(sched := k.sched.(gone := k.sched.gone + {t}),
                                      pages := GiveBack(k.pages, k.backing[t]).value, backing := k.backing - {t}))
  {
    assert Housed(k, t);
    TS.ReapEffect(k.sched, t);
    GiveBackWorks(k.pages, k.backing[t]);
  }

  /** Without one thread and its token, the others are housed as before. */
  lemma {:induction false} OthersStayHoused(k: Kernel, t: nat, pages: PH.System)
    requires Image(k) && AllHoused(k) && k.Thread(t) && PH.Untouched(k.pages.memory, pages.memory)
    requires forall u: nat :: k.Thread(u) && u != t ==> k.backing[u] in pages.live
    ensures var k' := k.(sched := k.sched.(gone := k.sched.gone + {t}), pages := pages, backing := k.backing - {t});
      Image(k') && AllHoused(k')
  {
    var k' := k.(sched := k.sched.(gone := k.sched.gone + {t}), pages := pages, backing := k.backing - {t});
    forall p: nat | p < k.reserved
      ensures PH.Reserved(pages.memory, p)
    {
      assert PH.Reserved(k.pages.memory, p);
    }
    forall u: nat | k'.Thread(u)
      ensures Housed(k', u)
    {
      assert k.Thread(u) && Housed(k, u);
    }
  }

  lemma {:induction false} TokensStay(k: Kernel, t: nat)
    requires Inv(k) && k.Thread(t) && t in k.backing && k.backing[t] in k.pages.live
    ensures GiveBack(k.pages, k.backing[t]).Some?
    ensures forall u: nat :: k.Thread(u) && u != t ==> k.backing[u] in GiveBack(k.pages, k.backing[t]).value.live
  {
    GiveBackWorks(k.pages, k.backing[t]);
    forall u: nat | k.Thread(u) && u != t
      ensures k.backing[u] in GiveBack(k.pages, k.backing[t]).value.live
    {
      assert Housed(k, u);
      OtherTokensStay(k.pages, k.backing[t], k.backing[u]);
    }
  }

  lemma {:induction false} ReapKeeps(k: Kernel, t: nat)
    requires Inv(k) && k.Thread(t) && TS.Step(k.sched, TS.Reap(t)).Some?
    ensures ReapStep(k, t).Some? && Inv(ReapStep(k, t).value)
  {
    ReapWorks(k, t);
    TS.StepKeepsInv(k.sched, TS.Reap(t));
    TS.ReapEffect(k.sched, t);
    GiveBackWorks(k.pages, k.backing[t]);
    TokensStay(k, t);
    OthersStayHoused(k, t, GiveBack(k.pages, k.backing[t]).value);
  }

  lemma {:induction false} SchedStepKeeps(k: Kernel, e: TS.Event)
    requires Inv(k) && TS.Step(k.sched, e).Some? && !e.Create? && !e.Reap?
    ensures Inv(k.(sched := TS.Step(k.sched, e).value))
  {
    TS.StepKeepsInv(k.sched, e);
    TS.StepKeepsPlaces(k.sched, e);
    SchedKeeps(k, TS.Step(k.sched, e).value);
  }

  lemma {:induction false} StepKeepsInv(k: Kernel, e: Event)
    requires Inv(k) && Step(k, e).Some?
    ensures Inv(Step(k, e).value)
  {
    match e
    case Work(memory, registers) => SchedStepKeeps(k, TS.Work(memory, registers));
    case Switch(next, returnAddress) => SchedStepKeeps(k, TS.Switch(next, returnAddress));
    case Exit => SchedStepKeeps(k, TS.Exit);
    case Spawn(trampoline, guard) => SpawnKeeps(k, trampoline, guard);
    case Reap(t) => ReapKeeps(k, t);
    case Request(area, count) => RequestKeeps(k, area, count);
    case Return(run) => ReturnKeeps(k, run);
  }

  // ---------- over whole runs

  /** Tasking begins: one task, no page handed out, the image reserved. */
  ghost predicate Start(k: Kernel) {
    && TS.Start(k.sched) && InKernel(k.sched.tasks[0], k.reserved)
    && PH.Inv(k.pages) && k.backing == map[]
    && forall p: nat :: p < k.reserved ==> PH.Reserved(k.pages.memory, p)
  }

  ghost function Run(k: Kernel, events: seq<Event>): Option<Kernel>
    requires Inv(k)
    decreases |events|
  {
    if events == [] then Some(k) else
      var next := Step(k, events[0]);
      if next.None? then None else
        StepKeepsInv(k, events[0]);
        Run(next.value, events[1..])
  }

  lemma {:induction false} RunKeepsInv(k: Kernel, events: seq<Event>)
    requires Inv(k) && Run(k, events).Some?
    ensures Inv(Run(k, events).value)
    decreases |events|
  {
    if events == [] {
    } else {
      StepKeepsInv(k, events[0]);
      RunKeepsInv(Step(k, events[0]).value, events[1..]);
    }
  }

  /** No step touches a reserved page, a hole or a padding bit. */
  lemma {:induction false} StepLeaves(k: Kernel, e: Event)
    requires Inv(k) && Step(k, e).Some?
    ensures PH.Untouched(k.pages.memory, Step(k, e).value.pages.memory) && Step(k, e).value.reserved == k.reserved
  {
    match e
    case Spawn(trampoline, guard) => PH.StepSafe(k.pages, PH.Request(Mapped, 1));
    case Request(area, count) => PH.StepSafe(k.pages, PH.Request(area, count));
    case Reap(t) =>
      ReapWorks(k, t);
      GiveBackWorks(k.pages, k.backing[t]);
    case Return(run) => GiveBackWorks(k.pages, run);
    case _ =>
  }

  lemma {:induction false} RunLeaves(k: Kernel, events: seq<Event>)
    requires Inv(k) && Run(k, events).Some?
    ensures PH.Untouched(k.pages.memory, Run(k, events).value.pages.memory)
    ensures Run(k, events).value.reserved == k.reserved
    decreases |events|
  {
    if events == [] {
    } else {
      var next := Step(k, events[0]).value;
      StepKeepsInv(k, events[0]);
      StepLeaves(k, events[0]);
      RunLeaves(next, events[1..]);
      PH.UntouchedChains(k.pages.memory, next.pages.memory, Run(next, events[1..]).value.pages.memory);
    }
  }

  lemma {:induction false} StartKeepsInv(k: Kernel)
    requires Start(k)
    ensures Inv(k)
  {
    TS.StartKeepsInv(k.sched);
  }

  /**
   In every state reachable from the start: two threads never share a page, no thread's page is also
   held by anybody else, and none of them touches the kernel image.
   */
  lemma {:induction false} ReachableIsHoused(k: Kernel, events: seq<Event>, t: nat, run: PageRun)
    requires Start(k) && Inv(k) && Run(k, events).Some? && Run(k, events).value.Thread(t)
    requires run in Run(k, events).value.pages.live
    ensures var k' := Run(k, events).value;
      && Housed(k', t)
      && (run == k'.backing[t] || Apart(run, k'.backing[t]))
      && k'.reserved <= k'.backing[t].first
  {
    RunKeepsInv(k, events);
    var k' := Run(k, events).value;
    HouseIsHeld(k', t);
    if run != k'.backing[t] { TokensApart(k'.pages, run, k'.backing[t]); }
  }

  /** The stack in use is not in the page of any other task's thread. */
  lemma {:induction false} StandsElsewhere(k: Kernel, t: nat)
    requires Inv(k) && k.Thread(t) && t != k.sched.current
    ensures !(Base(k.backing[t]) <= k.sched.registers.rsp < Base(k.backing[t]) + PAGE_2M)
  {
    var c := k.sched.current;
    TS.CurrentFacts(k.sched);
    HouseIsHeld(k, t);
    if c != 0 {
      assert k.Thread(c) && Housed(k, c) && k.backing[c] != k.backing[t];
      PagesApart(k.backing[c].first, k.backing[t].first);
    }
  }

  /**
   A finished thread's page can always be given back: no assertion of `release` fails, its pages are
   free again, and the processor stands on a stack in some other page.
   */
  lemma {:induction false} ReapReleases(k: Kernel, t: nat)
    requires Inv(k) && k.Thread(t) && TS.Step(k.sched, TS.Reap(t)).Some?
    ensures ReapStep(k, t).Some?
    ensures !(Base(k.backing[t]) <= k.sched.registers.rsp < Base(k.backing[t]) + PAGE_2M)
  {
    ReapWorks(k, t);
    assert t != k.sched.current by { TS.ReapEffect(k.sched, t); }
    StandsElsewhere(k, t);
  }

  /** Page p changes hands, from free to used or back, and no other page changes. */
  ghost predicate OnePageDiffers(m: PageModel.Memory, m': PageModel.Memory, p: nat, used: bool) {
    && p < |m.pages| == |m'.pages| && |m.pages| <= |m.used| == |m'.used|
    && m.used[p] == !used && m'.used[p] == used
    && forall q: nat :: q < |m.pages| && q != p ==> m'.pages[q] == m.pages[q] && m'.used[q] == m.used[q]
  }

  /** Creating a thread takes one free page below 10 MiB, and the thread lives at the start of it. */
  lemma {:induction false} SpawnMeans(k: Kernel, trampoline: TS.Word, guard: TS.Word, k': Kernel)
    requires Inv(k) && Step(k, Spawn(trampoline, guard)) == Some(k')
    ensures |k'.sched.tasks| == |k.sched.tasks| + 1 && k'.sched.tasks[..|k.sched.tasks|] == k.sched.tasks
    ensures |k.sched.tasks| in k'.backing && k'.backing == k.backing[|k.sched.tasks| := k'.backing[|k.sched.tasks|]]
    ensures var run, task := k'.backing[|k.sched.tasks|], k'.sched.tasks[|k.sched.tasks|];
      && run.count == 1 && (run.first + 1) * 0x20_0000 <= 0xA0_0000
      && task.context == 0xffff_8000_0000_0000 + run.first * 0x20_0000
      && task.stackTop == task.context + 0x8000 && task.state == TS.Ready
      && k'.pages.live == k.pages.live + [run]
      && OnePageDiffers(k.pages.memory, k'.pages.memory, run.first, true)
  {
    GrantedIsLow(k.pages.memory);
    GrantedPages(k.pages.memory, Mapped, 1);
    var run := Allocate(k.pages.memory, Mapped, 1).0.value;
    TS.CreatedThread(k.sched, Base(run), trampoline, guard, k'.sched);
  }

  lemma {:induction false} ReleasedPage(m: PageModel.Memory, run: PageRun, m': PageModel.Memory)
    requires PageModel.Consistent(m) && run.count == 1 && Release(m, run) == Some(m')
    ensures OnePageDiffers(m, m', run.first, false)
  {
    ReleaseAnswers(m, run);
  }

  /** Giving back a finished thread's page frees that page and forgets its token; nothing else changes. */
  lemma {:induction false} ReapMeans(k: Kernel, t: nat, k': Kernel)
    requires Inv(k) && Step(k, Reap(t)) == Some(k')
    ensures k.Thread(t) && t != k.sched.current && k.sched.tasks[t].state == TS.Zombie
    ensures k'.sched == k.sched.(gone := k.sched.gone + {t}) && t in k.backing && k'.backing == k.backing - {t}
    ensures OnePageDiffers(k.pages.memory, k'.pages.memory, k.backing[t].first, false)
  {
    ReapWorks(k, t);
    TS.ReapEffect(k.sched, t);
    GiveBackWorks(k.pages, k.backing[t]);
    HouseIsHeld(k, t);
    ReleasedPage(k.pages.memory, k.backing[t], k'.pages.memory);
  }

  // ---------- the operations in place

  /** The thread is built at the address of the granted page. */
  method PlaceThread(machine: TS.Machine, ghost k: Kernel, run: PageRun, trampoline: TS.Word, guard: TS.Word)
    returns (ok: bool)
    requires Inv(k) && k.sched == machine.View() && Allocate(k.pages.memory, Mapped, 1).0 == Ok(run)
    modifies machine
    ensures ok == TS.Step(k.sched, TS.Create(Base(run), trampoline, guard)).Some?
    ensures ok ==> TS.Step(k.sched, TS.Create(Base(run), trampoline, guard)) == Some(machine.View())
  {
    GrantedIsFresh(k);
    ok := machine.CreateKernelThread(PAGE_OFFSET + run.first * PAGE_2M, trampoline, guard);
  }

  /**
   `create_kernel_thread`: request a page, build the thread in it. It stops only for want of a page or
   of a process number; `run` is the token the creator keeps.
   */
  method CreateThread(
    memory: MemoryDescriptor, machine: TS.Machine, ghost k: Kernel, trampoline: TS.Word, guard: TS.Word)
    returns (run: Option<PageRun>)
    requires memory.Valid() && Inv(k) && k.sched == machine.View() && k.pages.memory == memory.View()
    modifies machine, memory.bitsMap, memory.pages, memory.zones, memory`used
    ensures run.Some? <==> Allocate(old(memory.View()), Mapped, 1).0.Ok? && k.sched.nextPid + 1 < TWO64
    ensures run.Some? ==> SpawnStep(k, trampoline, guard).Some?
    ensures run.Some? ==> var k' := SpawnStep(k, trampoline, guard).value;
      && memory.Valid() && k'.sched == machine.View() && k'.pages.memory == memory.View()
      && k'.backing == k.backing[|k.sched.tasks| := run.value]
  {
    SpawnSucceeds(k, trampoline, guard);
    AllocateOutcome(k.pages.memory, Mapped, 1);
    var r := memory.Allocate(Mapped, 1);
    if r.Err? {
      return None;
    }
    var ok := PlaceThread(machine, k, r.value, trampoline, guard);
    return if ok then Some(r.value) else None;
  }

  lemma {:induction false} ReapReleasesRun(k: Kernel, t: nat) returns (k': Kernel)
    requires Inv(k) && k.Thread(t) && TS.Step(k.sched, TS.Reap(t)).Some?
    ensures t in k.backing && ReapStep(k, t) == Some(k')
    ensures k'.sched == k.sched.(gone := k.sched.gone + {t})
    ensures Release(k.pages.memory, k.backing[t]) == Some(k'.pages.memory)
  {
    ReapWorks(k, t);
    GiveBackWorks(k.pages, k.backing[t]);
    k' := ReapStep(k, t).value;
  }

  /** A release that cannot be refused, and the task is gone. */
  method ReleaseAndForget(
    memory: MemoryDescriptor, machine: TS.Machine, run: PageRun, t: nat, ghost m': PageModel.Memory)
    requires memory.Valid() && Release(memory.View(), run) == Some(m')
    modifies machine`gone, memory.bitsMap, memory.pages, memory.zones, memory`used
    ensures memory.Valid() && memory.View() == m'
    ensures machine.View() == old(machine.View()).(gone := old(machine.View()).gone + {t})
  {
    machine.gone := machine.gone + {t};
    var ok := memory.Release(run);
    assert ok;
  }

  /** The end of a thread: its creator, on another stack, gives the page back. The release cannot be refused. */
  method FreeThread(memory: MemoryDescriptor, machine: TS.Machine, ghost k: Kernel, t: nat, run: PageRun)
    returns (ghost k': Kernel)
    requires memory.Valid() && Inv(k) && k.sched == machine.View() && k.pages.memory == memory.View()
    requires k.Thread(t) && TS.Step(k.sched, TS.Reap(t)).Some? && t in k.backing && run == k.backing[t]
    modifies machine`gone, memory.bitsMap, memory.pages, memory.zones, memory`used
    ensures ReapStep(k, t) == Some(k')
    ensures memory.Valid() && k'.sched == machine.View() && k'.pages.memory == memory.View()
  {
    k' := ReapReleasesRun(k, t);
    ReleaseAndForget(memory, machine, run, t, k'.pages.memory);
  }
}
