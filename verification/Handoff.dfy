/** From the firmware's answers, through the published table, to the page allocator. */
module Handoff {
  import opened Prelude
  import opened ByteMemory
  import opened BootInfo
  import opened E820
  import opened MemoryInit
  import opened PageAllocator
  import PageModel
  import PageHistory

  /** The kernel accepts the table and can build its bookkeeping from it. */
  ghost predicate Startable(entries: seq<Entry>, kernelEnd: nat) {
    |entries| <= MAX_ENTRIES && Acceptable(entries) && BootLayoutUsable(entries) && Bootable(entries, kernelEnd)
  }

  ghost predicate StartableFrom(bios: Bios, n: nat, kernelEnd: nat)
    requires Answers(bios)
  {
    Delivers(bios, n) && Startable(NormalisedAll(bios, n), kernelEnd)
  }

  /** The bookkeeping `m` is what `init` builds from the first n answers. */
  ghost predicate BuiltFrom(m: PageModel.Memory, bios: Bios, n: nat, kernelEnd: nat)
    requires Answers(bios)
  {
    && StartableFrom(bios, n, kernelEnd)
    && Built(m, NormalisedAll(bios, n), ReservedPages(Sized(NormalisedAll(bios, n), kernelEnd).value))
  }

  /** `init`, with the reading of the table it starts with. */
  method InitFromHandoff(low: Bytes, kernelEnd: nat) returns (r: Option<MemoryDescriptor>)
    requires |low| >= LOW_MEMORY
    ensures r.Some? <==>
      Validate(HeaderAt(low)).Ok? && Startable(EntriesAt(low, Validate(HeaderAt(low)).value), kernelEnd)
    ensures r.Some? ==> fresh(r.value) && r.value.Valid() && PageHistory.Inv(PageHistory.System(r.value.View(), []))
    ensures r.Some? ==> var entries := EntriesAt(low, Validate(HeaderAt(low)).value);
      Built(r.value.View(), entries, ReservedPages(Sized(entries, kernelEnd).value))
  {
    var table := ReadMemoryMap(low);
    if table.Err? {
      return None;
    }
    var memory := Init(table.value, kernelEnd);
    return if memory.Ok? then Some(memory.value) else None;
  }

  lemma {:induction false} OnlyOneStart(bios: Bios, n: nat, kernelEnd: nat)
    requires Answers(bios) && Delivers(bios, n)
    ensures (exists k: nat :: StartableFrom(bios, k, kernelEnd)) <==> StartableFrom(bios, n, kernelEnd)
  {
    if k: nat :| StartableFrom(bios, k, kernelEnd) { DeliveryUnique(bios, k, n); }
  }

  /**
   Loader, then kernel. Whatever the BIOS answers: the kernel comes up exactly when the BIOS delivers a
   map that passes every check, and then its bookkeeping is built from the delivered answers.
   */
  method Boot(low: array<u8>, bios: Firmware, kernelEnd: nat) returns (r: Option<MemoryDescriptor>, ghost n: nat)
    requires low.Length >= LOW_MEMORY && bios.Valid() && bios.calls == 0
    modifies low, bios
    ensures bios.Valid() && bios.calls <= MAX_ENTRIES + 1
    ensures r.Some? <==> exists k: nat :: StartableFrom(bios.answers, k, kernelEnd)
    ensures r.Some? ==> fresh(r.value) && r.value.Valid() && BuiltFrom(r.value.View(), bios.answers, n, kernelEnd)
    ensures r.Some? ==> PageHistory.Inv(PageHistory.System(r.value.View(), []))
    ensures OnlyHandoff(old(low[..]), low[..])
  {
    n := 0;
    var ok := CollectMap(low, bios);
    if !ok {
      return None, 0;
    }
    n :| Delivers(bios.answers, n) && Collected(low[..], NormalisedAll(bios.answers, n), 1);
    PublishedIsRead(low[..], bios.answers, n);
    OnlyOneStart(bios.answers, n, kernelEnd);
    r := InitFromHandoff(low[..], kernelEnd);
  }

  /** The buffer of a basic answer, or of an extended one that is enabled, describes a range holding this byte. */
  predicate Reports(r: Response, byte: nat)
    requires |r.scratch| == 24
  {
    && (r.ecx == 20 || Get32(r.scratch, 20) % 2 == 1)
    && Get64(r.scratch, 0) <= byte < Get64(r.scratch, 0) + Get64(r.scratch, 8)
  }

  /** Its type is RAM, and no attribute besides "enabled" is set. */
  predicate PlainRam(r: Response)
    requires |r.scratch| == 24
  {
    Get32(r.scratch, 16) == 1 && (r.ecx == 20 || Get32(r.scratch, 20) < 2)
  }

  lemma {:induction false} AnswerAt(bios: Bios, n: nat, k: nat, byte: nat)
    requires Answers(bios) && Delivers(bios, n) && k < n
    ensures var entry := NormalisedAll(bios, n)[k];
      && (entry.address <= byte < entry.End() <==> Reports(bios(k), byte))
      && (entry.kind == 1 <==> PlainRam(bios(k)))
  {
    assert Usable(bios(k));
    RamAnswer(bios(k), byte);
  }

  lemma {:induction false} FreeByteIsReported(
    m: PageModel.Memory, bios: Bios, n: nat, kernelEnd: nat, p: nat, byte: nat)
    requires Answers(bios) && BuiltFrom(m, bios, n, kernelEnd) && PAGE_OFFSET + TEXT <= kernelEnd
    requires p < |m.pages| && !m.used[p] && p * PAGE_2M <= byte < (p + 1) * PAGE_2M
    ensures exists k :: 0 <= k < n && Reports(bios(k), byte) && PlainRam(bios(k))
  {
    var entries := NormalisedAll(bios, n);
    FreePagesAvoidMetadata(m, entries, kernelEnd, p, byte);
    var i :| 0 <= i < |entries| && entries[i].Ram() && entries[i].address <= byte < entries[i].End();
    AnswerAt(bios, n, i, byte);
  }

  lemma {:induction false} ReportOfFreeByte(
    m: PageModel.Memory, bios: Bios, n: nat, kernelEnd: nat, p: nat, byte: nat, k: nat)
    requires Answers(bios) && BuiltFrom(m, bios, n, kernelEnd)
    requires p < |m.pages| && !m.used[p] && p * PAGE_2M <= byte < (p + 1) * PAGE_2M
    requires k < n && Reports(bios(k), byte)
    ensures PlainRam(bios(k))
  {
    var entries := NormalisedAll(bios, n);
    AnswerAt(bios, n, k, byte);
    FreePagesAvoidReserved(m, entries, ReservedPages(Sized(entries, kernelEnd).value), p, byte, k);
  }

  /**
   Every byte of every page that can ever be handed out lies in a range that one answer of the firmware
   reported as plain RAM, and every answer that reports the byte at all does so.
   */
  lemma {:induction false} FreeByteIsFirmwareRam(
    m: PageModel.Memory, bios: Bios, n: nat, kernelEnd: nat, p: nat, byte: nat)
    requires Answers(bios) && BuiltFrom(m, bios, n, kernelEnd) && PAGE_OFFSET + TEXT <= kernelEnd
    requires p < |m.pages| && !m.used[p] && p * PAGE_2M <= byte < (p + 1) * PAGE_2M
    ensures exists k :: 0 <= k < n && Reports(bios(k), byte) && PlainRam(bios(k))
    ensures forall k :: 0 <= k < n && Reports(bios(k), byte) ==> PlainRam(bios(k))
  {
    FreeByteIsReported(m, bios, n, kernelEnd, p, byte);
    forall k | 0 <= k < n && Reports(bios(k), byte)
      ensures PlainRam(bios(k))
    {
      ReportOfFreeByte(m, bios, n, kernelEnd, p, byte, k);
    }
  }

  /** Conversely no usable page is lost: a whole page inside plain reported RAM, above everything in use, is free. */
  lemma {:induction false} ReportedPageIsFree(
    m: PageModel.Memory, bios: Bios, n: nat, kernelEnd: nat, p: nat, k: nat)
    requires Answers(bios) && BuiltFrom(m, bios, n, kernelEnd)
    requires k < n && PlainRam(bios(k))
    requires Reports(bios(k), p * 0x20_0000) && Reports(bios(k), (p + 1) * 0x20_0000 - 1)
    requires PAGE_OFFSET + p * 0x20_0000 >= Sized(NormalisedAll(bios, n), kernelEnd).value.end
    ensures p < |m.pages| && !m.used[p]
  {
    var entries := NormalisedAll(bios, n);
    AnswerAt(bios, n, k, p * 0x20_0000);
    AnswerAt(bios, n, k, (p + 1) * 0x20_0000 - 1);
    assert PageOf(entries[k], p);
    assert WholeRamPage(entries, p);
  }
}
