/**
 The user demonstration as a protocol: a page is taken, opened to user code, closed again and given
 back, and at every moment all that user code can reach lies in a page that is held.
 */
module UserDemo {
  import opened Prelude
  import PageModel
  import opened PageRuns
  import opened PageAllocator
  import opened UserMode

  const PAGE_2M: nat := PageModel.PAGE_2M

  /** `held` is the token of the page, `active` the flag ACTIVE, `kernelStack` the field RSP0. */
  datatype State = State(tables: Tables, memory: Memory, held: Option<PageRun>, active: bool, kernelStack: nat)

  datatype Step = Take | Map | Enter(stack: nat) | Leave(stack: nat) | Unmap | GiveBack

  /** Every byte user code can reach belongs to the run that is held. */
  ghost predicate OnlyHeld(tables: Tables, root: nat, held: Option<PageRun>) {
    forall va: nat :: va < TWO64 && Walk(tables, root, va).Some? ==>
      held.Some? && held.value.Has(Walk(tables, root, va).value.physical / PAGE_2M)
  }

  /** One page of the memory that boot mapped, held by exactly this token. */
  ghost predicate HeldPage(m: Memory, run: PageRun)
    requires PageModel.Shape(m)
  {
    Live(m, run) && run.count == 1 && run.End() * PAGE_2M <= PageModel.DIRECT_RAM_END
  }

  /** The promise of the whole protocol. */
  ghost predicate Safe(s: State, at: Places) {
    && PageModel.Consistent(s.memory) && |s.memory.pages| < TWO64
    && at.root in s.tables && OnlyOpen(s.tables[at.root], {0})
    && (s.held.Some? ==> HeldPage(s.memory, s.held.value))
    && OnlyHeld(s.tables, at.root, s.held)
    && (s.active ==> s.held.Some? && Installed(s.tables, at, s.held.value.first * PAGE_2M))
  }

  /** What each step does, whatever the order they are taken in. */
  ghost predicate Next(s: State, step: Step, s': State, at: Places)
    requires Safe(s, at)
  {
    match step
    case Take =>
      && s.held.None? && s'.held.Some?
      && Allocate(s.memory, Mapped, 1) == (Ok(s'.held.value), s'.memory)
      && s' == s.(memory := s'.memory, held := s'.held)
    case Map =>
      && s.held.Some? && !s.active
      && Installed(s'.tables, at, s.held.value.first * PAGE_2M)
      && s' == s.(tables := s'.tables)
    case Enter(stack) =>
      && s.held.Some? && !s.active && Installed(s.tables, at, s.held.value.first * PAGE_2M)
      && s' == s.(active := true, kernelStack := stack)
    case Leave(stack) =>
      s.active && s' == s.(active := false, kernelStack := stack)
    case Unmap =>
      !s.active && s' == s.(tables := RootCleared(s.tables, at.root))
    case GiveBack =>
      && s.held.Some? && !s.active
      && Release(s.memory, s.held.value) == Some(s'.memory)
      && s' == s.(memory := s'.memory, held := None)
  }

  // ---------- the order is what keeps it safe

  /** A run granted from the mapped area ends inside the 10 MiB that boot mapped. */
  lemma {:induction false} MappedRunIsLow(m: Memory, count: nat)
    requires PageModel.Consistent(m) && Allocate(m, Mapped, count).0.Ok?
    ensures var run := Allocate(m, Mapped, count).0.value;
      run.count == count > 0 && run.End() * PAGE_2M <= PageModel.DIRECT_RAM_END
  {
    var z, first := GrantedPlace(m, Mapped, count);
    assert Fits(m, Mapped, count, z, first);
  }

  lemma {:induction false} TakeSafe(s: State, s': State, at: Places)
    requires Safe(s, at) && Next(s, Take, s', at)
    ensures Safe(s', at)
  {
    MappedRunIsLow(s.memory, 1);
    AllocatedIsLive(s.memory, Mapped, 1);
    AllocateCommits(s.memory, Mapped, 1);
  }

  /** The installed tables open bytes of the held page alone. */
  lemma {:induction false} InstalledIsConfined(tables: Tables, at: Places, run: PageRun)
    requires run.count == 1 && Installed(tables, at, run.first * PAGE_2M)
    ensures OnlyHeld(tables, at.root, Some(run))
  {
    forall va: nat | va < TWO64 && Walk(tables, at.root, va).Some?
      ensures run.Has(Walk(tables, at.root, va).value.physical / PAGE_2M)
    {
      WalkIsGranted(tables, at, run.first * PAGE_2M, va);
    }
  }

  /** Giving the page back is safe exactly when user code can no longer reach anything. */
  lemma {:induction false} GiveBackNeedsUnmap(s: State, s': State, at: Places)
    requires Safe(s, at) && Next(s, GiveBack, s', at)
    ensures Safe(s', at) <==> NothingReachable(s.tables, at.root)
  {
    ReleaseClears(s.memory, s.held.value);
    if Safe(s', at) {
      forall va: nat
        ensures Walk(s.tables, at.root, va).None?
      {
        assert OnlyHeld(s'.tables, at.root, None);
      }
    }
  }

  /** Every step keeps the promise, except giving back a page that is still mapped. */
  lemma {:induction false} StepSafe(s: State, step: Step, s': State, at: Places)
    requires Safe(s, at) && Next(s, step, s', at)
    ensures Safe(s', at) <==> (step.GiveBack? ==> NothingReachable(s.tables, at.root))
  {
    match step
    case Take => TakeSafe(s, s', at);
    case Map => InstalledIsConfined(s'.tables, at, s.held.value);
    case Enter(_) =>
    case Leave(_) =>
    case Unmap => ClearedIsUnreachable(s.tables, at.root);
    case GiveBack => GiveBackNeedsUnmap(s, s', at);
  }

  /** While user code runs, the pointer check and the page walk agree on every non-empty range. */
  lemma {:induction false} ActiveReadable(s: State, at: Places, address: u64, length: u64)
    requires Safe(s, at) && s.active && length > 0
    ensures Readable(address, length) <==> AllAccessible(s.tables, at.root, address, length)
  {
    ReadableIsAccessible(s.tables, at, s.held.value.first * PAGE_2M, address, length);
  }

  /** RSP0 is the given stack while user code runs, and the given one again afterwards; nothing else changes. */
  lemma {:induction false} CrossingMeans(s: State, step: Step, s': State, at: Places)
    requires Safe(s, at) && Next(s, step, s', at) && (step.Enter? || step.Leave?)
    ensures step.Enter? ==> !s.active && s'.active && s.held.Some?
    ensures step.Leave? ==> s.active && !s'.active
    ensures s'.kernelStack == step.stack
    ensures s'.tables == s.tables && s'.memory == s.memory && s'.held == s.held
  {
  }

  /** Mapping opens exactly two small pages at the start of the held page; unmapping closes everything. */
  lemma {:induction false} MappingMeans(s: State, step: Step, s': State, at: Places, va: nat)
    requires Safe(s, at) && Next(s, step, s', at) && (step.Map? || step.Unmap?) && va < 0x1_0000_0000_0000_0000
    ensures !s.active && s'.memory == s.memory && s'.held == s.held && !s'.active && s'.kernelStack == s.kernelStack
    ensures step.Unmap? ==> Walk(s'.tables, at.root, va).None?
    ensures step.Map? ==> s.held.Some?
    ensures step.Map? ==>
      (Walk(s'.tables, at.root, va).Some? <==> 0x80_0000 <= va < 0x80_1000 || 0x9F_F000 <= va < 0xA0_0000)
    ensures step.Map? && 0x80_0000 <= va < 0x80_1000 ==>
      Walk(s'.tables, at.root, va).value.physical == s.held.value.first * 0x20_0000 + (va - 0x80_0000)
    ensures step.Map? && 0x9F_F000 <= va < 0xA0_0000 ==>
      Walk(s'.tables, at.root, va).value.physical == s.held.value.first * 0x20_0000 + 0x1000 + (va - 0x9F_F000)
  {
    if step.Map? {
      UserSees(s'.tables, at, s.held.value.first * PAGE_2M, va);
    } else {
      ClearedIsUnreachable(s.tables, at.root);
    }
  }

  /** Taking gets one free page below 10 MiB; giving back frees that page and no other. */
  lemma {:induction false} OwningMeans(s: State, step: Step, s': State, at: Places)
    requires Safe(s, at) && Next(s, step, s', at) && (step.Take? || step.GiveBack?)
    ensures s'.tables == s.tables && s'.active == s.active && s'.kernelStack == s.kernelStack
    ensures step.Take? ==> s.held.None? && s'.held.Some? && s'.held.value.count == 1
    ensures step.Take? ==> (s'.held.value.first + 1) * 0x20_0000 <= 0xA0_0000
    ensures step.GiveBack? ==> s.held.Some? && s'.held.None? && !s.active
    ensures var p := if step.Take? then s'.held.value.first else s.held.value.first;
      && p < |s.memory.pages| == |s'.memory.pages| && |s.memory.pages| <= |s.memory.used| == |s'.memory.used|
      && s.memory.used[p] == step.GiveBack? && s'.memory.used[p] == step.Take?
      && forall q: nat :: q < |s.memory.pages| && q != p ==>
        s'.memory.pages[q] == s.memory.pages[q] && s'.memory.used[q] == s.memory.used[q]
  {
    if step.Take? {
      MappedRunIsLow(s.memory, 1);
      GrantedPages(s.memory, Mapped, 1);
    } else {
      ReleaseAnswers(s.memory, s.held.value);
    }
  }

  // ---------- the demonstration

  /** A story: `states` has one state more than there are steps, each step leads to the next state, all are safe. */
  ghost predicate Story(states: seq<State>, steps: seq<Step>, at: Places) {
    && |states| == |steps| + 1
    && (forall i :: 0 <= i < |states| ==> Safe(states[i], at))
    && (forall i :: 0 <= i < |steps| ==> Next(states[i], steps[i], states[i + 1], at))
  }

  lemma {:induction false} StoryGrows(states: seq<State>, steps: seq<Step>, step: Step, s': State, at: Places)
    requires Story(states, steps, at) && Next(states[|states| - 1], step, s', at) && Safe(s', at)
    ensures Story(states + [s'], steps + [step], at)
  {
    var longer, more := states + [s'], steps + [step];
    forall i | 0 <= i < |more|
      ensures Next(longer[i], more[i], longer[i + 1], at)
    {
      if i < |steps| { assert longer[i] == states[i] && longer[i + 1] == states[i + 1]; }
    }
  }

  lemma {:induction false} OneAfterAnother(before: seq<Step>, first: seq<Step>, second: seq<Step>)
    ensures before + first + second == before + (first + second)
  {
  }

  /** What happens to a page between taking it and having given it back. */
  function OneUse(returnStack: nat, oldStack: nat): seq<Step> {
    [Map, Enter(returnStack), Leave(oldStack), Unmap, GiveBack]
  }

  class Demonstration {
    const space: UserSpace
    const memory: MemoryDescriptor
    const returnStack: nat          // top of RETURN_STACK
    var held: Option<PageRun>
    var active: bool
    var kernelStack: nat

    /** All states so far, this one included, and the steps between them. */
    ghost var states: seq<State>
    ghost var steps: seq<Step>

    ghost function View(): State
      requires memory.zonesSize <= memory.zones.Length
      reads this, memory, memory.pages, memory.zones, space, space.root, space.pdpt, space.pd, space.pt
    {
      State(space.View(), memory.View(), held, active, kernelStack)
    }

    ghost predicate Separate() {
      memory.bitsMap !in {space.root, space.pdpt, space.pd, space.pt}
    }

    /** The promise holds now and has held in every state since the start. */
    ghost predicate Inv()
      reads this, memory, memory.bitsMap, memory.pages, memory.zones, space, space.root, space.pdpt, space.pd, space.pt
    {
      && space.Valid() && memory.Valid() && Separate()
      && Safe(View(), space.at)
      && Story(states, steps, space.at) && states[|states| - 1] == View()
    }

    /** Nothing is mapped and no page is held: the promise holds at the start. */
    constructor (space: UserSpace, memory: MemoryDescriptor, returnStack: nat, kernelStack: nat)
      requires space.Valid() && space.root[0] == 0 && memory.Valid() && memory.bitsSize < TWO64
      requires memory.bitsMap !in {space.root, space.pdpt, space.pd, space.pt}
      ensures Inv() && held.None? && !active && this.kernelStack == kernelStack
      ensures this.space == space && this.memory == memory && this.returnStack == returnStack
      ensures states == [View()] && steps == []
    {
      this.space, this.memory, this.returnStack := space, memory, returnStack;
      this.held, this.active, this.kernelStack := None, false, kernelStack;
      var start := State(space.View(), memory.View(), None, false, kernelStack);
      this.states, this.steps := [start], [];
      new;
      assert RootCleared(start.tables, space.at.root) == start.tables by {
        assert space.root[..][0 := 0] == space.root[..];
      }
      ClearedIsUnreachable(start.tables, space.at.root);
    }

    /** The records grow, nothing else changes. */
    ghost method Append(step: Step)
      requires space.Valid() && memory.Valid()
      modifies `states, `steps
      ensures space.Valid() && memory.Valid() && View() == old(View())
      ensures states == old(states) + [View()] && steps == old(steps) + [step]
    {
      states, steps := states + [View()], steps + [step];
    }

    /** Whatever was just done is one safe step from the state before. */
    ghost method Record(s: State, step: Step)
      requires space.Valid() && memory.Valid() && Separate()
      requires Story(states, steps, space.at) && states[|states| - 1] == s
      requires Next(s, step, View(), space.at) && (step.GiveBack? ==> NothingReachable(s.tables, space.at.root))
      modifies `states, `steps
      ensures Inv() && View() == old(View())
      ensures states == old(states) + [View()] && steps == old(steps) + [step]
    {
      StepSafe(s, step, View(), space.at);
      StoryGrows(states, steps, step, View(), space.at);
      Append(step);
    }

    /** One page from the allocator, or nothing happens. */
    method Hold() returns (ok: bool)
      requires space.Valid() && memory.Valid() && Separate() && held.None?
      modifies `held, memory.bitsMap, memory.pages, memory.zones, memory`used
      ensures space.Valid() && memory.Valid() && ok == held.Some?
      ensures ok == Allocate(old(memory.View()), Mapped, 1).0.Ok?
      ensures ok ==> Allocate(old(memory.View()), Mapped, 1) == (Ok(held.value), memory.View())
      ensures View() == old(View()).(memory := memory.View(), held := held) && (!ok ==> View() == old(View()))
    {
      AllocateOutcome(memory.View(), Mapped, 1);
      var r := memory.Allocate(Mapped, 1);
      if r.Ok? {
        held := Some(r.value);
      }
      return r.Ok?;
    }

    method Take() returns (ok: bool)
      requires Inv() && held.None?
      modifies this, memory.bitsMap, memory.pages, memory.zones, memory`used
      ensures Inv()
      ensures ok == Allocate(old(View()).memory, Mapped, 1).0.Ok?
      ensures !ok ==> View() == old(View()) && states == old(states) && steps == old(steps)
      ensures ok ==> Next(old(View()), Step.Take, View(), space.at)
      ensures ok ==> states == old(states) + [View()] && steps == old(steps) + [Step.Take]
    {
      ghost var s := View();
      ok := Hold();
      if ok {
        Record(s, Step.Take);
      }
    }

    method Map()
      requires Inv() && held.Some? && !active && space.root[0] == 0
      modifies this, space.root, space.pdpt, space.pd, space.pt
      ensures Inv()
      ensures Next(old(View()), Step.Map, View(), space.at)
      ensures states == old(states) + [View()] && steps == old(steps) + [Step.Map]
    {
      ghost var s := View();
      space.InstallMapping(held.value.first * PAGE_2M);
      Record(s, Step.Map);
    }

    /** RSP0 moves to the return stack before ACTIVE is set. */
    method Enter()
      requires Inv() && held.Some? && !active && Installed(space.View(), space.at, held.value.first * PAGE_2M)
      modifies this
      ensures Inv()
      ensures Next(old(View()), Step.Enter(returnStack), View(), space.at)
      ensures states == old(states) + [View()] && steps == old(steps) + [Step.Enter(returnStack)]
    {
      ghost var s := View();
      kernelStack := returnStack;
      active := true;
      Record(s, Step.Enter(returnStack));
    }

    method Leave(stack: nat)
      requires Inv() && active
      modifies this
      ensures Inv()
      ensures Next(old(View()), Step.Leave(stack), View(), space.at)
      ensures states == old(states) + [View()] && steps == old(steps) + [Step.Leave(stack)]
    {
      ghost var s := View();
      active := false;
      kernelStack := stack;
      Record(s, Step.Leave(stack));
    }

    method Unmap()
      requires Inv() && !active
      modifies this, space.root
      ensures Inv() && NothingReachable(space.View(), space.at.root) && space.root[0] == 0
      ensures Next(old(View()), Step.Unmap, View(), space.at)
      ensures states == old(states) + [View()] && steps == old(steps) + [Step.Unmap]
    {
      ghost var s := View();
      ClearedIsUnreachable(s.tables, space.at.root);
      space.ClearMapping();
      Record(s, Step.Unmap);
    }

    /** Only when nothing is reachable any more. */
    method GiveBack()
      requires Inv() && held.Some? && !active && NothingReachable(space.View(), space.at.root)
      modifies this, memory.bitsMap, memory.pages, memory.zones, memory`used
      ensures Inv() && NothingReachable(space.View(), space.at.root)
      ensures Next(old(View()), Step.GiveBack, View(), space.at)
      ensures states == old(states) + [View()] && steps == old(steps) + [Step.GiveBack]
    {
      ghost var s := View();
      ReleaseClears(s.memory, held.value);
      var released := memory.Release(held.value);
      held := None;
      Record(s, Step.GiveBack);
    }

    /** Into user code and back; RSP0 is put back. */
    method Visit()
      requires Inv() && held.Some? && !active && Installed(space.View(), space.at, held.value.first * PAGE_2M)
      modifies this
      ensures Inv() && !active && held == old(held) && kernelStack == old(kernelStack)
      ensures steps == old(steps) + [Step.Enter(returnStack), Step.Leave(old(kernelStack))]
      ensures old(states) <= states
    {
      var oldStack := kernelStack;
      Enter();
      Leave(oldStack);
      OneAfterAnother(old(steps), [Step.Enter(returnStack)], [Step.Leave(oldStack)]);
    }

    /** Open the held page, run user code, and stop it. */
    method RunUser()
      requires Inv() && held.Some? && !active && space.root[0] == 0
      modifies this, space.root, space.pdpt, space.pd, space.pt
      ensures Inv() && !active && held == old(held) && kernelStack == old(kernelStack)
      ensures steps == old(steps) + [Step.Map, Step.Enter(returnStack), Step.Leave(old(kernelStack))]
      ensures old(states) <= states
    {
      Map();
      Visit();
      OneAfterAnother(old(steps), [Step.Map], [Step.Enter(returnStack), Step.Leave(old(kernelStack))]);
    }

    /** Close the page first, then give it back. */
    method Finish()
      requires Inv() && held.Some? && !active
      modifies this, space.root, memory.bitsMap, memory.pages, memory.zones, memory`used
      ensures Inv() && !active && held.None? && kernelStack == old(kernelStack)
      ensures steps == old(steps) + [Step.Unmap, Step.GiveBack] && old(states) <= states
      ensures NothingReachable(space.View(), space.at.root) && space.root[0] == 0
      ensures Release(old(memory.View()), old(held).value) == Some(memory.View())
    {
      Unmap();
      GiveBack();
      OneAfterAnother(old(steps), [Step.Unmap], [Step.GiveBack]);
    }

    method UseAndReturn()
      requires Inv() && held.Some? && !active && space.root[0] == 0
      modifies this, memory.bitsMap, memory.pages, memory.zones, memory`used
      modifies space.root, space.pdpt, space.pd, space.pt
      ensures Inv() && !active && held.None? && kernelStack == old(kernelStack)
      ensures steps == old(steps) + OneUse(returnStack, old(kernelStack)) && old(states) <= states
      ensures NothingReachable(space.View(), space.at.root) && space.root[0] == 0
      ensures Release(old(memory.View()), old(held).value) == Some(memory.View())
    {
      RunUser();
      Finish();
      OneAfterAnother(old(steps), [Step.Map, Step.Enter(returnStack), Step.Leave(old(kernelStack))],
        [Step.Unmap, Step.GiveBack]);
    }

    /**
     The whole demonstration: take a page, open it, run user code, stop, close the page and only then
     give it back. On the way every state is safe; afterwards nothing is reachable, the page
     bookkeeping and RSP0 are what they were, and it may be done again.
     */
    method Run() returns (ok: bool)
      requires Inv() && held.None? && !active && space.root[0] == 0
      modifies this, memory.bitsMap, memory.pages, memory.zones, memory`used
      modifies space.root, space.pdpt, space.pd, space.pt
      ensures Inv() && held.None? && !active && space.root[0] == 0
      ensures ok == Allocate(old(memory.View()), Mapped, 1).0.Ok?
      ensures ok ==> steps == old(steps) + ([Step.Take] + OneUse(returnStack, old(kernelStack)))
      ensures old(states) <= states && memory.View() == old(memory.View()) && kernelStack == old(kernelStack)
      ensures ok ==> NothingReachable(space.View(), space.at.root)
      ensures !ok ==> View() == old(View()) && steps == old(steps)
    {
      ghost var before := memory.View();
      AllocateOutcome(before, Mapped, 1);
      ok := Take();
      if !ok {
        return false;
      }
      ReleaseUndoesAllocate(before, Mapped, 1);
      UseAndReturn();
      OneAfterAnother(old(steps), [Step.Take], OneUse(returnStack, old(kernelStack)));
    }
  }
}
