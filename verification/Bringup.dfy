/** The whole way: from the firmware's answers, through `init` and any page traffic, to every run of the threads. */
module Bringup {
  import opened Prelude
  import opened E820
  import BootInfo
  import MemoryInit
  import Handoff
  import PageModel
  import PageRuns
  import PH = PageHistory
  import TS = TaskSwitch
  import Threads

  const PAGE_OFFSET: nat := MemoryInit.PAGE_OFFSET
  const PAGE_2M: nat := PageModel.PAGE_2M

  /** The bookkeeping `init` builds, with nothing handed out. */
  ghost predicate Initial(m: PageModel.Memory, entries: seq<BootInfo.Entry>, kernelEnd: nat) {
    && MemoryInit.Sized(entries, kernelEnd).Ok?
    && MemoryInit.Built(m, entries, MemoryInit.ReservedPages(MemoryInit.Sized(entries, kernelEnd).value))
    && PH.Inv(PH.System(m, []))
  }

  /** Tasking begins on the boot stack; stack and boot task are statics of the kernel image. */
  ghost predicate BootsInImage(sched: TS.System, kernelEnd: nat) {
    TS.Start(sched) && sched.tasks[0].context < kernelEnd && sched.tasks[0].stackTop <= kernelEnd
  }

  lemma {:induction false} ImageIsReserved(entries: seq<BootInfo.Entry>, kernelEnd: nat)
    requires MemoryInit.Sized(entries, kernelEnd).Ok?
    ensures kernelEnd <= PAGE_OFFSET + MemoryInit.ReservedPages(MemoryInit.Sized(entries, kernelEnd).value) * PAGE_2M
  {
    var plan := MemoryInit.Sized(entries, kernelEnd).value;
    assert kernelEnd <= plan.end;
  }

  /** Pages were requested and given back since `init`, in any order; tasking may begin then. */
  lemma {:induction false} InitLeadsToStart(
    m: PageModel.Memory, entries: seq<BootInfo.Entry>, kernelEnd: nat, ops: seq<PH.Op>, sched: TS.System)
    requires Initial(m, entries, kernelEnd) && BootsInImage(sched, kernelEnd)
    ensures PH.Run(PH.System(m, []), ops).Some?
    ensures Threads.Start(Threads.Kernel(sched, PH.Run(PH.System(m, []), ops).value, map[],
                                         MemoryInit.ReservedPages(MemoryInit.Sized(entries, kernelEnd).value)))
  {
    var reserved := MemoryInit.ReservedPages(MemoryInit.Sized(entries, kernelEnd).value);
    PH.RunSafe(PH.System(m, []), ops);
    MemoryInit.BuiltIsSafeStart(m, entries, reserved);
    ImageIsReserved(entries, kernelEnd);
    var pages := PH.Run(PH.System(m, []), ops).value;
    forall p: nat | p < reserved
      ensures PH.Reserved(pages.memory, p)
    {
      assert PH.Reserved(m, p);
    }
  }

  /** Scheduler and bookkeeping when tasking begins. */
  ghost function AtStart(
    m: PageModel.Memory, entries: seq<BootInfo.Entry>, kernelEnd: nat, ops: seq<PH.Op>, sched: TS.System)
    : (k: Threads.Kernel)
    requires Initial(m, entries, kernelEnd) && BootsInImage(sched, kernelEnd)
    ensures Threads.Start(k) && Threads.Inv(k) && PH.Untouched(m, k.pages.memory)
  {
    InitLeadsToStart(m, entries, kernelEnd, ops, sched);
    PH.RunSafe(PH.System(m, []), ops);
    var k := Threads.Kernel(sched, PH.Run(PH.System(m, []), ops).value, map[],
                            MemoryInit.ReservedPages(MemoryInit.Sized(entries, kernelEnd).value));
    Threads.StartKeepsInv(k);
    k
  }

  /** A page that is held now was free when `init` had finished. */
  lemma {:induction false} HeldWasFree(m: PageModel.Memory, pages: PH.System, run: PageRuns.PageRun, p: nat)
    requires PH.Inv(PH.System(m, [])) && PH.Inv(pages) && PH.Untouched(m, pages.memory)
    requires run in pages.live && run.Has(p)
    ensures p < |m.pages| && !m.used[p]
  {
    Threads.TokenIsLive(pages, run);
    assert PH.Accounted(PH.System(m, []), p) && PageModel.PageAgrees(m, p);
  }

  /** What tasking starts from is what the firmware's first n answers lead to. */
  ghost predicate FromFirmware(m: PageModel.Memory, bios: Bios, n: nat, kernelEnd: nat, sched: TS.System) {
    && Answers(bios) && Handoff.BuiltFrom(m, bios, n, kernelEnd) && PAGE_OFFSET + MemoryInit.TEXT <= kernelEnd
    && Initial(m, NormalisedAll(bios, n), kernelEnd) && BootsInImage(sched, kernelEnd)
  }

  /** The physical byte lies above the kernel image, one answer reports it as RAM, and none as anything else. */
  ghost predicate FirmwareRam(bios: Bios, n: nat, kernelEnd: nat, byte: nat)
    requires Answers(bios)
  {
    && PAGE_OFFSET + byte >= kernelEnd
    && (exists k :: 0 <= k < n && Handoff.Reports(bios(k), byte) && Handoff.PlainRam(bios(k)))
    && (forall k :: 0 <= k < n && Handoff.Reports(bios(k), byte) ==> Handoff.PlainRam(bios(k)))
  }

  lemma {:induction false} FreeIsFirmwareRam(
    m: PageModel.Memory, bios: Bios, n: nat, kernelEnd: nat, sched: TS.System, p: nat, byte: nat)
    requires FromFirmware(m, bios, n, kernelEnd, sched)
    requires p < |m.pages| && !m.used[p] && p * PAGE_2M <= byte < (p + 1) * PAGE_2M
    ensures FirmwareRam(bios, n, kernelEnd, byte)
  {
    Handoff.FreeByteIsFirmwareRam(m, bios, n, kernelEnd, p, byte);
    MemoryInit.FreePagesAvoidMetadata(m, NormalisedAll(bios, n), kernelEnd, p, byte);
  }

  lemma {:induction false} HeldAnyTimeWasFree(
    m: PageModel.Memory, start: Threads.Kernel, events: seq<Threads.Event>, run: PageRuns.PageRun, p: nat)
    requires PH.Inv(PH.System(m, [])) && Threads.Inv(start) && PH.Untouched(m, start.pages.memory)
    requires Threads.Run(start, events).Some? && run in Threads.Run(start, events).value.pages.live && run.Has(p)
    ensures p < |m.pages| && !m.used[p]
  {
    Threads.RunKeepsInv(start, events);
    Threads.RunLeaves(start, events);
    var end := Threads.Run(start, events).value;
    PH.UntouchedChains(m, start.pages.memory, end.pages.memory);
    HeldWasFree(m, end.pages, run, p);
  }

  /**
   Whatever the firmware answered, whatever pages were requested and given back before, and whatever the
   threads do: every byte of every run of pages that is ever held, a thread's or anybody's, lies above
   the kernel image, was reported as RAM by one answer of the firmware, and by none as anything else.
   */
  lemma {:induction false} HeldIsFirmwareRam(
    m: PageModel.Memory, bios: Bios, n: nat, kernelEnd: nat, ops: seq<PH.Op>, sched: TS.System,
    events: seq<Threads.Event>, end: Threads.Kernel, run: PageRuns.PageRun, byte: nat)
    requires FromFirmware(m, bios, n, kernelEnd, sched)
    requires Threads.Run(AtStart(m, NormalisedAll(bios, n), kernelEnd, ops, sched), events) == Some(end)
    requires run in end.pages.live
    requires run.first * PAGE_2M <= byte < run.End() * PAGE_2M
    ensures FirmwareRam(bios, n, kernelEnd, byte)
  {
    var p := byte / PAGE_2M;
    HeldAnyTimeWasFree(m, AtStart(m, NormalisedAll(bios, n), kernelEnd, ops, sched), events, run, p);
    FreeIsFirmwareRam(m, bios, n, kernelEnd, sched, p, byte);
  }

  /** In every state a run leads to, a thread's descriptor and stack lie in a page that is held. */
  lemma {:induction false} ThreadInRun(
    start: Threads.Kernel, events: seq<Threads.Event>, end: Threads.Kernel, t: nat, address: nat)
    returns (run: PageRuns.PageRun)
    requires Threads.Inv(start) && Threads.Run(start, events) == Some(end)
    requires end.Thread(t) && end.sched.tasks[t].context <= address < end.sched.tasks[t].stackTop
    ensures run in end.pages.live && address >= PAGE_OFFSET
    ensures run.first * PAGE_2M <= address - PAGE_OFFSET < run.End() * PAGE_2M
  {
    Threads.RunKeepsInv(start, events);
    Threads.HouseIsHeld(end, t);
    run := end.backing[t];
  }

  /**
   In particular every address of a thread's descriptor and stack, in every reachable state, is backed
   by such a byte.
   */
  lemma {:induction false} ThreadsLiveInRam(
    m: PageModel.Memory, bios: Bios, n: nat, kernelEnd: nat, ops: seq<PH.Op>, sched: TS.System,
    events: seq<Threads.Event>, end: Threads.Kernel, t: nat, address: nat)
    requires FromFirmware(m, bios, n, kernelEnd, sched)
    requires Threads.Run(AtStart(m, NormalisedAll(bios, n), kernelEnd, ops, sched), events) == Some(end)
    requires end.Thread(t) && end.sched.tasks[t].context <= address < end.sched.tasks[t].stackTop
    ensures PAGE_OFFSET <= address && FirmwareRam(bios, n, kernelEnd, address - PAGE_OFFSET)
  {
    var start := AtStart(m, NormalisedAll(bios, n), kernelEnd, ops, sched);
    var run := ThreadInRun(start, events, end, t, address);
    HeldIsFirmwareRam(m, bios, n, kernelEnd, ops, sched, events, end, run, address - PAGE_OFFSET);
  }
}
