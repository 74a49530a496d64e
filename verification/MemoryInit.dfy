/**
 Building the page bookkeeping from an accepted memory map: sizing, metadata placement,
 zones, reservation of everything up to the end of the metadata, and the final self-check.
 */
module MemoryInit {
  import opened Prelude
  import opened Arithmetic
  import opened BootInfo
  import opened PageRuns
  import PageModel
  import PageHistory
  import opened PageAllocator

  const PAGE_OFFSET: nat := 0xffff_8000_0000_0000
  const PAGE_4K: nat := 0x1000
  const SIZE_OF_PAGE: nat := 40
  const SIZE_OF_ZONE: nat := 80
  /** Where `kernel.lds` places `_text`, as a physical address. */
  const TEXT: nat := 0x10_0000

  const PAGE_2M: nat := PageModel.PAGE_2M
  const DIRECT_RAM_END: nat := PageModel.DIRECT_RAM_END

  const RESERVED: set<Flag> := {PageModel.PageTableMapped, PageModel.KernelInit, PageModel.Active, PageModel.Kernel}

  datatype InitError =
    | AlignmentOverflow | NoUsablePages | MetadataOverflow | MetadataTooLarge | KernelNotInRam

  // ---------- alignment and usable ranges

  /** `align_up`; None is its overflow panic. */
  function AlignUp(address: u64, alignment: nat): (r: Option<nat>)
    requires alignment > 0
    ensures r.Some? <==> address + alignment - 1 < TWO64
    ensures r.Some? ==> r.value % alignment == 0 && address <= r.value < address + alignment
  {
    var sum := CheckedAdd(address, alignment - 1);
    if sum.None? then None else
      RoundDown(sum.value, alignment);
      Some(sum.value / alignment * alignment)
  }

  predicate AlignFits(entry: Entry) {
    entry.Ram() ==> entry.address + PAGE_2M - 1 < TWO64
  }

  /** `usable_range`: the entry's whole 2 MiB pages as a byte range. */
  function UsableRange(entry: Entry): (r: Option<(nat, nat)>)
    requires AlignFits(entry) && entry.EndFits()
    ensures r.Some? ==> r.value.0 % PAGE_2M == 0 && r.value.1 % PAGE_2M == 0
    ensures r.Some? ==> entry.Ram() && entry.address <= r.value.0 < r.value.1 <= entry.End()
  {
    if !entry.Ram() then None else
      var start := AlignUp(entry.address, PAGE_2M).value;
      var end := entry.End() / PAGE_2M * PAGE_2M;
      if end > start then Some((start, end)) else None
  }

  /** Page p lies wholly inside the entry, which is RAM. */
  predicate PageOf(entry: Entry, p: nat) {
    Covers(entry, p * PAGE_2M, (p + 1) * PAGE_2M)
  }

  /** The usable range is exactly the entry's whole pages: nothing shared with a neighbour, nothing lost. */
  lemma {:induction false} UsableRangeIsWholePages(entry: Entry, p: nat)
    requires AlignFits(entry) && entry.EndFits()
    ensures PageOf(entry, p) <==>
      UsableRange(entry).Some? && UsableRange(entry).value.0 / PAGE_2M <= p < UsableRange(entry).value.1 / PAGE_2M
  {
  }

  ghost predicate WholeRamPage(entries: seq<Entry>, p: nat) {
    exists i :: 0 <= i < |entries| && PageOf(entries[i], p)
  }

  // ---------- where the metadata goes

  datatype Plan = Plan(bitmap: nat, pages: nat, zones: nat, end: nat)

  function PhysicalEnd(entries: seq<Entry>): (r: nat)
    ensures forall i :: 0 <= i < |entries| && entries[i].length != 0 ==> entries[i].End() <= r
  {
    if entries == [] then 0 else
      var n := |entries| - 1;
      var before := PhysicalEnd(entries[..n]);
      if entries[n].length != 0 && before < entries[n].End() then entries[n].End() else before
  }

  lemma {:induction false} PhysicalEndFits(entries: seq<Entry>)
    requires forall i :: 0 <= i < |entries| ==> entries[i].EndFits()
    ensures PhysicalEnd(entries) < TWO64
  {
    if entries != [] { PhysicalEndFits(entries[..|entries| - 1]); }
  }

  /** Bitmap, page array and zone array behind the kernel image; None is an overflow panic. */
  function PlanMetadata(kernelEnd: nat, bitsSize: nat): (r: Option<Plan>)
    ensures r.Some? ==>
      && kernelEnd <= r.value.bitmap
      && r.value.bitmap + (bitsSize + 63) / 64 * 8 <= r.value.pages
      && r.value.pages + bitsSize * SIZE_OF_PAGE <= r.value.zones
      && r.value.zones + MAX_ZONES * SIZE_OF_ZONE <= r.value.end < TWO64
  {
    if kernelEnd >= TWO64 then None else
    var bitmap := AlignUp(kernelEnd, PAGE_4K);
    if bitmap.None? || bitmap.value + (bitsSize + 63) / 64 * 8 >= TWO64 then None else
    var pages := AlignUp(bitmap.value + (bitsSize + 63) / 64 * 8, PAGE_4K);
    if pages.None? || pages.value + bitsSize * SIZE_OF_PAGE >= TWO64 then None else
    var zones := AlignUp(pages.value + bitsSize * SIZE_OF_PAGE, PAGE_4K);
    if zones.None? || zones.value + MAX_ZONES * SIZE_OF_ZONE >= TWO64 then None else
    var end := AlignUp(zones.value + MAX_ZONES * SIZE_OF_ZONE, 256);
    if end.None? || end.value >= TWO64 then None else
    Some(Plan(bitmap.value, pages.value, zones.value, end.value))
  }

  // ---------- the zone table

  function NewZone(start: nat, end: nat): Zone
    requires start <= end
  {
    PageModel.Zone(start / PAGE_2M, (end - start) / PAGE_2M, start, end, 0, (end - start) / PAGE_2M, 0)
  }

  /** The zones of the first n entries, in table order. */
  function ZonesOf(entries: seq<Entry>, n: nat): (zones: seq<Zone>)
    requires n <= |entries| && forall i :: 0 <= i < n ==> AlignFits(entries[i]) && entries[i].EndFits()
    ensures |zones| <= n
  {
    if n == 0 then [] else
      match UsableRange(entries[n - 1])
      case None => ZonesOf(entries, n - 1)
      case Some(range) => ZonesOf(entries, n - 1) + [NewZone(range.0, range.1)]
  }

  predicate AllEndsFit(entries: seq<Entry>) {
    forall i :: 0 <= i < |entries| ==> entries[i].EndFits()
  }

  predicate AlignableTo(entries: seq<Entry>, n: nat)
    requires n <= |entries|
  {
    forall i :: 0 <= i < n ==> AlignFits(entries[i])
  }

  predicate Alignable(entries: seq<Entry>) {
    forall i :: 0 <= i < |entries| ==> AlignFits(entries[i]) && entries[i].EndFits()
  }

  /** Every zone is the usable range of one entry. */
  lemma {:induction false} ZoneSource(entries: seq<Entry>, n: nat, z: nat) returns (i: nat)
    requires n <= |entries| && Alignable(entries) && z < |ZonesOf(entries, n)|
    ensures i < n && UsableRange(entries[i]).Some?
    ensures ZonesOf(entries, n)[z] == NewZone(UsableRange(entries[i]).value.0, UsableRange(entries[i]).value.1)
  {
    if UsableRange(entries[n - 1]).Some? && z == |ZonesOf(entries, n)| - 1 {
      i := n - 1;
    } else {
      i := ZoneSource(entries, n - 1, z);
    }
  }

  /** Every usable range has its zone. */
  lemma {:induction false} SourceZone(entries: seq<Entry>, n: nat, i: nat) returns (z: nat)
    requires i < n <= |entries| && Alignable(entries) && UsableRange(entries[i]).Some?
    ensures z < |ZonesOf(entries, n)|
    ensures ZonesOf(entries, n)[z] == NewZone(UsableRange(entries[i]).value.0, UsableRange(entries[i]).value.1)
  {
    if i == n - 1 {
      z := |ZonesOf(entries, n)| - 1;
    } else {
      z := SourceZone(entries, n - 1, i);
    }
  }

  /** The "overlapping E820 RAM zones" assertion is unreachable: an accepted map gives a page to one zone only. */
  lemma {:induction false} ZonesApart(entries: seq<Entry>, n: nat, range: (nat, nat), z: nat, p: nat)
    requires n < |entries| && Acceptable(entries) && Alignable(entries)
    requires UsableRange(entries[n]) == Some(range) && z < |ZonesOf(entries, n)|
    ensures !(ZonesOf(entries, n)[z].Has(p) && NewZone(range.0, range.1).Has(p))
  {
    var i := ZoneSource(entries, n, z);
    assert Compatible(entries[i], entries[n]);
  }

  lemma {:induction false} NewZoneShaped(range: (nat, nat), bitsSize: nat)
    requires range.0 % PAGE_2M == 0 && range.1 % PAGE_2M == 0
    requires range.0 < range.1 <= bitsSize * PAGE_2M
    ensures PageModel.ZoneShape(NewZone(range.0, range.1), bitsSize)
  {
  }

  lemma {:induction false} ZonesShaped(entries: seq<Entry>, n: nat, bitsSize: nat)
    requires n <= |entries| && Alignable(entries) && PhysicalEnd(entries) <= bitsSize * PAGE_2M
    ensures forall z :: 0 <= z < |ZonesOf(entries, n)| ==> PageModel.ZoneShape(ZonesOf(entries, n)[z], bitsSize)
  {
    forall z | 0 <= z < |ZonesOf(entries, n)|
      ensures PageModel.ZoneShape(ZonesOf(entries, n)[z], bitsSize)
    {
      var i := ZoneSource(entries, n, z);
      NewZoneShaped(UsableRange(entries[i]).value, bitsSize);
    }
  }

  /** A whole RAM page is in some zone, */
  lemma {:induction false} RamPageHasZone(entries: seq<Entry>, p: nat) returns (z: nat)
    requires Alignable(entries) && WholeRamPage(entries, p)
    ensures z < |ZonesOf(entries, |entries|)| && ZonesOf(entries, |entries|)[z].Has(p)
  {
    var i :| 0 <= i < |entries| && PageOf(entries[i], p);
    UsableRangeIsWholePages(entries[i], p);
    z := SourceZone(entries, |entries|, i);
  }

  /** and a page of any zone is a whole RAM page. */
  lemma {:induction false} ZonePageIsRam(entries: seq<Entry>, z: nat, p: nat)
    requires Alignable(entries) && z < |ZonesOf(entries, |entries|)| && ZonesOf(entries, |entries|)[z].Has(p)
    ensures WholeRamPage(entries, p)
  {
    var i := ZoneSource(entries, |entries|, z);
    UsableRangeIsWholePages(entries[i], p);
  }

  // ---------- the first pass over the map

  function EntryPages(entry: Entry): nat {
    if AlignFits(entry) && entry.EndFits() && UsableRange(entry).Some? then
      var (start, end) := UsableRange(entry).value;
      (end - start) / PAGE_2M
    else 0
  }

  /** Pages in the usable ranges of the first n entries. */
  function PageCount(entries: seq<Entry>, n: nat): nat
    requires n <= |entries|
  {
    if n == 0 then 0 else PageCount(entries, n - 1) + EntryPages(entries[n - 1])
  }

  lemma {:induction false} CountsSomePage(entries: seq<Entry>, n: nat)
    requires n <= |entries| && Alignable(entries)
    ensures PageCount(entries, n) > 0 <==> exists j :: 0 <= j < n && UsableRange(entries[j]).Some?
  {
    if n > 0 {
      CountsSomePage(entries, n - 1);
      if UsableRange(entries[n - 1]).Some? {
        UsableRangeIsWholePages(entries[n - 1], UsableRange(entries[n - 1]).value.0 / PAGE_2M);
        assert EntryPages(entries[n - 1]) > 0;
      }
    }
  }

  lemma {:induction false} SomePage(entries: seq<Entry>)
    requires Alignable(entries)
    ensures (exists p: nat :: WholeRamPage(entries, p)) <==>
      exists j :: 0 <= j < |entries| && UsableRange(entries[j]).Some?
  {
    if p: nat :| WholeRamPage(entries, p) {
      var i :| 0 <= i < |entries| && PageOf(entries[i], p);
      UsableRangeIsWholePages(entries[i], p);
    }
    if j :| 0 <= j < |entries| && UsableRange(entries[j]).Some? {
      var p := UsableRange(entries[j]).value.0 / PAGE_2M;
      UsableRangeIsWholePages(entries[j], p);
      assert WholeRamPage(entries, p);
    }
  }

  lemma {:induction false} CountsWholePages(entries: seq<Entry>)
    requires Alignable(entries)
    ensures PageCount(entries, |entries|) > 0 <==> exists p: nat :: WholeRamPage(entries, p)
  {
    CountsSomePage(entries, |entries|);
    SomePage(entries);
  }

  /** One entry's part in the running totals. */
  lemma {:induction false} TotalsGrow(entries: seq<Entry>, i: nat)
    requires Acceptable(entries) && i < |entries|
    ensures Length(RamOf(entries, i + 1)) ==
      Length(RamOf(entries, i)) + (if entries[i].Ram() then entries[i].length else 0) < TWO64
    ensures AllEndsFit(entries) && PageCount(entries, i + 1) == PageCount(entries, i) + EntryPages(entries[i])
    ensures PhysicalEnd(entries[..i + 1])
      == if entries[i].length != 0 && PhysicalEnd(entries[..i]) < entries[i].End() then entries[i].End()
         else PhysicalEnd(entries[..i])
  {
    assert entries[..i + 1][..i] == entries[..i];
    RamTotalFits(entries, i + 1);
    LengthSplit(RamOf(entries, i), [entries[i]]);
  }

  /** One entry's part in the survey; None is the alignment overflow. */
  method SurveyEntry(entry: Entry, physicalEnd: nat, totalRam: nat, totalPages: nat)
    returns (r: Option<(nat, nat, nat)>)
    requires entry.EndFits() && totalRam + (if entry.Ram() then entry.length else 0) < TWO64
    ensures r.None? <==> !AlignFits(entry)
    ensures r.Some? ==>
      && r.value.0 == (if entry.length != 0 && physicalEnd < entry.End() then entry.End() else physicalEnd)
      && r.value.1 == totalRam + (if entry.Ram() then entry.length else 0)
      && r.value.2 == totalPages + EntryPages(entry)
  {
    if entry.length == 0 {
      return Some((physicalEnd, totalRam, totalPages));
    }
    var end := if physicalEnd < entry.End() then entry.End() else physicalEnd;
    var ram := totalRam;
    if entry.kind == 1 {
      assert CheckedAdd(totalRam, entry.length).Some?;
      ram := totalRam + entry.length;
      if AlignUp(entry.address, PAGE_2M).None? {
        return None;
      }
    }
    var range := UsableRange(entry);
    var pages := if range.Some? then (range.value.1 - range.value.0) / PAGE_2M else 0;
    return Some((end, ram, totalPages + pages));
  }

  /** The loop over the map: end of RAM, RAM total and whole pages; the total never overflows. */
  method SumUp(entries: seq<Entry>) returns (r: Option<(nat, nat, nat)>)
    requires Acceptable(entries)
    ensures r.None? <==> !Alignable(entries)
    ensures r.Some? ==>
      r.value == (PhysicalEnd(entries), Length(RamOf(entries, |entries|)), PageCount(entries, |entries|))
  {
    var physicalEnd: nat, totalRam: nat, totalPages: nat := 0, 0, 0;
    for i := 0 to |entries|
      invariant AlignableTo(entries, i)
      invariant physicalEnd == PhysicalEnd(entries[..i])
      invariant totalRam == Length(RamOf(entries, i))
      invariant totalPages == PageCount(entries, i)
    {
      TotalsGrow(entries, i);
      var added := SurveyEntry(entries[i], physicalEnd, totalRam, totalPages);
      if added.None? {
        assert !AlignFits(entries[i]);
        return None;
      }
      physicalEnd, totalRam, totalPages := added.value.0, added.value.1, added.value.2;
    }
    assert entries[..|entries|] == entries;
    return Some((physicalEnd, totalRam, totalPages));
  }

  /** Sizes the map, and stops on one without a whole page of RAM. */
  method Survey(entries: seq<Entry>) returns (r: Result<(nat, nat), InitError>)
    requires Acceptable(entries)
    ensures r == Err(AlignmentOverflow) <==> !Alignable(entries)
    ensures r == Err(NoUsablePages) <==> Alignable(entries) && !exists p: nat :: WholeRamPage(entries, p)
    ensures r.Err? ==> r.error == AlignmentOverflow || r.error == NoUsablePages
    ensures r.Ok? ==> r.value == (PhysicalEnd(entries), Length(RamOf(entries, |entries|)))
  {
    var totals := SumUp(entries);
    if totals.None? {
      return Err(AlignmentOverflow);
    }
    CountsWholePages(entries);
    if totals.value.2 == 0 {
      return Err(NoUsablePages);
    }
    return Ok((totals.value.0, totals.value.1));
  }

  // ---------- building the zones

  ghost predicate FreshPage(m: Memory, p: nat)
    requires p < |m.pages| <= |m.used|
  {
    && PageModel.PageShape(m, p)
    && m.pages[p].attribute == {} && m.pages[p].referenceCount == 0
    && m.used[p] == m.pages[p].zone.None?
  }

  /** Zones built, nothing reserved yet: exactly the zoned pages are free. */
  ghost predicate Zoned(m: Memory, zones: seq<Zone>) {
    && m.zones == zones
    && |m.used| == 64 * ((|m.pages| + 63) / 64)
    && (forall p :: 0 <= p < |m.pages| ==> FreshPage(m, p))
    && (forall p :: |m.pages| <= p < |m.used| ==> m.used[p])
  }

  /** The effect of adding one zone. */
  ghost predicate ZoneAdded(m: Memory, m': Memory, zone: Zone) {
    && m'.zones == m.zones + [zone]
    && |m'.pages| == |m.pages| && |m'.used| == |m.used| && |m.pages| <= |m.used|
    && (forall p :: 0 <= p < |m.pages| ==>
          m'.pages[p] == (if zone.Has(p) then m.pages[p].(zone := Some(|m.zones|)) else m.pages[p]))
    && (forall p :: 0 <= p < |m.used| ==> m'.used[p] == (m.used[p] && !zone.Has(p)))
  }

  lemma {:induction false} ZonedGrows(m: Memory, m': Memory, zone: Zone)
    requires Zoned(m, m.zones) && ZoneAdded(m, m', zone) && zone.End() <= |m.pages|
    requires forall p :: zone.Start() <= p < zone.End() ==> m.pages[p].zone.None?
    ensures Zoned(m', m.zones + [zone])
  {
    forall p | 0 <= p < |m'.pages|
      ensures FreshPage(m', p)
    {
      assert FreshPage(m, p);
    }
  }

  method AddZone(memory: MemoryDescriptor, start: nat, end: nat)
    requires memory.Arrays() && memory.zonesSize < MAX_ZONES
    requires start < end && PageModel.ZoneShape(NewZone(start, end), memory.bitsSize)
    requires forall p :: start / PAGE_2M <= p < end / PAGE_2M ==> memory.pages[p].zone.None?
    modifies memory, memory.bitsMap, memory.pages, memory.zones
    ensures memory.Arrays()
    ensures ZoneAdded(old(memory.View()), memory.View(), NewZone(start, end))
  {
    ghost var m := memory.View();
    var z := memory.zonesSize;
    memory.zonesSize := z + 1;
    var first := start / PAGE_2M;
    var number := (end - start) / PAGE_2M;
    memory.zones[z] := NewZone(start, end);
    assert memory.zones[..z + 1] == m.zones + [NewZone(start, end)];
    for j := first to first + number
      invariant memory.Arrays() && memory.zonesSize == z + 1
      invariant memory.zones[..z + 1] == m.zones + [NewZone(start, end)]
      invariant forall p :: 0 <= p < memory.bitsSize ==>
        memory.pages[p] == (if first <= p < j then m.pages[p].(zone := Some(z)) else m.pages[p])
      invariant |memory.used| == |m.used|
      invariant forall p :: 0 <= p < |m.used| ==> memory.used[p] == (m.used[p] && !(first <= p < j))
    {
      assert memory.pages[j].zone.None?;
      memory.pages[j] := memory.pages[j].(zone := Some(z));
      memory.SetUsed(j, false);
    }
  }

  lemma {:induction false} NoRefs(pages: seq<Page>, lo: nat, hi: nat)
    requires hi <= |pages| && forall p :: lo <= p < hi ==> pages[p].referenceCount == 0
    ensures PageModel.RefsIn(pages, lo, hi) == 0
    decreases hi
  {
    if lo < hi { NoRefs(pages, lo, hi - 1); }
  }

  /** With zones built and nothing reserved, the three forms already agree. */
  lemma {:induction false} ZonedIsConsistent(m: Memory, entries: seq<Entry>)
    requires Alignable(entries) && PhysicalEnd(entries) <= |m.pages| * PAGE_2M
    requires Zoned(m, ZonesOf(entries, |entries|))
    ensures PageModel.Consistent(m)
  {
    ZonesShaped(entries, |entries|, |m.pages|);
    forall p | 0 <= p < |m.pages|
      ensures PageModel.PageShape(m, p) && PageModel.PageAgrees(m, p)
    {
      assert FreshPage(m, p);
    }
    forall z | 0 <= z < |m.zones|
      ensures PageModel.ZoneAgrees(m, z)
    {
      var zone := m.zones[z];
      assert PageModel.ZoneShape(zone, |m.pages|);
      var i := ZoneSource(entries, |entries|, z);
      forall p | zone.Start() <= p < zone.End()
        ensures !m.used[p] && m.pages[p].referenceCount == 0
      {
        assert FreshPage(m, p) && zone.Has(p);
      }
      PageModel.FreeInRun(m.used, zone.Start(), zone.End(), zone.Start(), zone.End() - zone.Start());
      NoRefs(m.pages, zone.Start(), zone.End());
    }
  }

  // ---------- reserving everything in use

  /** The first n pages reserved for the kernel, everything else as it was. */
  ghost predicate ReservedTo(m: Memory, m': Memory, n: nat) {
    && PageModel.SameLayout(m, m') && |m.pages| <= |m.used|
    && (forall p :: 0 <= p < |m.pages| ==>
          m'.pages[p] == (if p < n then m.pages[p].(attribute := RESERVED, referenceCount := 1) else m.pages[p]))
    && (forall p :: 0 <= p < |m.used| ==> m'.used[p] == (m.used[p] || p < n))
  }

  lemma {:induction false} ReserveNext(m: Memory, m': Memory, n: nat)
    requires PageModel.Consistent(m') && ReservedTo(m, m', n) && n < |m.pages|
    requires m.pages[n].attribute == {}
    ensures ReservedTo(m, PageModel.InitPage(m', n, RESERVED), n + 1)
  {
    PageModel.InitPageAgrees(m', n, RESERVED);
    SameLayoutChains(m, m', PageModel.InitPage(m', n, RESERVED));
  }

  method ReservePages(memory: MemoryDescriptor, reserved: nat)
    requires memory.Valid() && reserved <= memory.bitsSize
    requires forall p :: 0 <= p < memory.bitsSize ==> memory.pages[p].attribute == {}
    modifies memory.bitsMap, memory.pages, memory.zones, memory`used
    ensures memory.Valid()
    ensures ReservedTo(old(memory.View()), memory.View(), reserved)
  {
    ghost var m := memory.View();
    for index := 0 to reserved
      invariant memory.Valid() && ReservedTo(m, memory.View(), index)
    {
      ReserveNext(m, memory.View(), index);
      memory.InitPage(index, RESERVED);
    }
  }

  // ---------- init

  function BitsSize(entries: seq<Entry>): nat
    requires PhysicalEnd(entries) + PAGE_2M - 1 < TWO64
  {
    AlignUp(PhysicalEnd(entries), PAGE_2M).value / PAGE_2M
  }

  /** The first failing size check, or the metadata placement. */
  function Sized(entries: seq<Entry>, kernelEnd: nat): (r: Result<Plan, InitError>)
    ensures r.Ok? ==> PhysicalEnd(entries) + PAGE_2M - 1 < TWO64
    ensures r.Ok? ==> PlanMetadata(kernelEnd, BitsSize(entries)) == Some(r.value)
    ensures r.Ok? ==> PAGE_OFFSET <= r.value.end <= PAGE_OFFSET + DIRECT_RAM_END
    ensures r.Ok? ==> ContainsUsable(entries, TEXT, r.value.end - PAGE_OFFSET)
  {
    if PhysicalEnd(entries) + PAGE_2M - 1 >= TWO64 then Err(AlignmentOverflow) else
    var plan := PlanMetadata(kernelEnd, BitsSize(entries));
    if plan.None? then Err(MetadataOverflow)
    else if plan.value.end < PAGE_OFFSET || plan.value.end - PAGE_OFFSET > DIRECT_RAM_END then Err(MetadataTooLarge)
    else if !ContainsUsable(entries, TEXT, plan.value.end - PAGE_OFFSET) then Err(KernelNotInRam)
    else Ok(plan.value)
  }

  /** The maps on which `init` does not stop. */
  ghost predicate Bootable(entries: seq<Entry>, kernelEnd: nat) {
    Alignable(entries) && (exists p: nat :: WholeRamPage(entries, p)) && Sized(entries, kernelEnd).Ok?
  }

  /** The zones lie where the zone table puts them. */
  ghost predicate SameZones(zones: seq<Zone>, entries: seq<Entry>)
  {
    && Alignable(entries) && |zones| == |ZonesOf(entries, |entries|)|
    && forall z :: 0 <= z < |zones| ==> PageModel.SameBounds(ZonesOf(entries, |entries|)[z], zones[z])
  }

  /** Pages covering everything below the end of the metadata. */
  function ReservedPages(plan: Plan): nat
    requires PAGE_OFFSET <= plan.end
  {
    (plan.end - PAGE_OFFSET + PAGE_2M - 1) / PAGE_2M
  }

  /** What `init` promises: the free pages are exactly the whole RAM pages above everything in use. */
  ghost predicate Built(m: Memory, entries: seq<Entry>, reserved: nat) {
    && PageModel.Consistent(m)
    && reserved <= |m.pages| <= |m.used|
    && (forall p :: 0 <= p < |m.pages| ==> (!m.used[p] <==> reserved <= p && WholeRamPage(entries, p)))
    && (forall p :: 0 <= p < |m.pages| ==> (m.pages[p].zone.Some? <==> WholeRamPage(entries, p)))
    && (forall p: nat :: WholeRamPage(entries, p) ==> p < |m.pages|)
    && (forall p :: 0 <= p < reserved ==> m.pages[p].attribute == RESERVED)
    && (forall p :: reserved <= p < |m.pages| ==> m.pages[p].attribute == {})
  }

  lemma {:induction false} WholePagesBelowEnd(entries: seq<Entry>, bitsSize: nat)
    requires PhysicalEnd(entries) <= bitsSize * PAGE_2M
    ensures forall p: nat :: WholeRamPage(entries, p) ==> p < bitsSize
  {
    forall p: nat | WholeRamPage(entries, p)
      ensures p < bitsSize
    {
      var i :| 0 <= i < |entries| && PageOf(entries[i], p);
    }
  }

  /** The reservation never runs off the page array: the metadata lies below the end of RAM. */
  lemma {:induction false} ReservedFits(entries: seq<Entry>, kernelEnd: nat)
    requires Sized(entries, kernelEnd).Ok?
    ensures ReservedPages(Sized(entries, kernelEnd).value) <= BitsSize(entries)
    ensures PhysicalEnd(entries) <= BitsSize(entries) * PAGE_2M
  {
    var end := Sized(entries, kernelEnd).value.end - PAGE_OFFSET;
    var i :| 0 <= i < |entries| && Covers(entries[i], TEXT, end);
    assert end <= PhysicalEnd(entries);
  }

  lemma {:induction false} OwnedIsWholeRam(m: Memory, entries: seq<Entry>, p: nat)
    requires Alignable(entries) && Zoned(m, ZonesOf(entries, |entries|)) && p < |m.pages|
    ensures m.pages[p].zone.Some? <==> WholeRamPage(entries, p)
  {
    assert FreshPage(m, p) && PageModel.PageShape(m, p);
    if WholeRamPage(entries, p) {
      var z := RamPageHasZone(entries, p);
      assert m.zones[z].Has(p);
    }
    if m.pages[p].zone.Some? {
      ZonePageIsRam(entries, m.pages[p].zone.value, p);
    }
  }

  lemma {:induction false} ReservedIsBuilt(m: Memory, m': Memory, entries: seq<Entry>, reserved: nat)
    requires Alignable(entries) && PhysicalEnd(entries) <= |m.pages| * PAGE_2M && reserved <= |m.pages|
    requires Zoned(m, ZonesOf(entries, |entries|))
    requires PageModel.Consistent(m') && ReservedTo(m, m', reserved)
    ensures Built(m', entries, reserved)
  {
    WholePagesBelowEnd(entries, |m.pages|);
    forall p | 0 <= p < |m.pages|
      ensures !m'.used[p] <==> reserved <= p && WholeRamPage(entries, p)
      ensures m'.pages[p].zone.Some? <==> WholeRamPage(entries, p)
      ensures m'.pages[p].attribute == if p < reserved then RESERVED else {}
    {
      OwnedIsWholeRam(m, entries, p);
      assert FreshPage(m, p);
    }
  }

  /** From `init` the allocator's invariant holds, with nothing handed out yet. */
  lemma {:induction false} BuiltIsSafeStart(m: Memory, entries: seq<Entry>, reserved: nat)
    requires Built(m, entries, reserved) && |m.pages| < TWO64
    ensures PageHistory.Inv(PageHistory.System(m, []))
    ensures forall p: nat :: p < reserved ==> PageHistory.Reserved(m, p)
  {
    forall p | 0 <= p < |m.pages|
      ensures PageHistory.Accounted(PageHistory.System(m, []), p)
    {
    }
  }

  /** One more zone, for one more entry that has whole pages. */
  method BuildZone(memory: MemoryDescriptor, entries: seq<Entry>, i: nat, range: (nat, nat))
    requires i < |entries| <= MAX_ENTRIES && Acceptable(entries) && Alignable(entries)
    requires PhysicalEnd(entries) <= memory.bitsSize * PAGE_2M && UsableRange(entries[i]) == Some(range)
    requires memory.Arrays() && Zoned(memory.View(), ZonesOf(entries, i))
    modifies memory, memory.bitsMap, memory.pages, memory.zones
    ensures memory.Arrays() && Zoned(memory.View(), ZonesOf(entries, i + 1))
  {
    ghost var m := memory.View();
    var zone := NewZone(range.0, range.1);
    NewZoneShaped(range, memory.bitsSize);
    forall p | zone.Start() <= p < zone.End()
      ensures memory.pages[p].zone.None?
    {
      assert FreshPage(m, p);
      if m.pages[p].zone.Some? { ZonesApart(entries, i, range, m.pages[p].zone.value, p); }
    }
    AddZone(memory, range.0, range.1);
    ZonedGrows(m, memory.View(), zone);
  }

  method BuildZones(memory: MemoryDescriptor, entries: seq<Entry>)
    requires |entries| <= MAX_ENTRIES && Acceptable(entries) && Alignable(entries)
    requires PhysicalEnd(entries) <= memory.bitsSize * PAGE_2M
    requires memory.Arrays() && Zoned(memory.View(), [])
    modifies memory, memory.bitsMap, memory.pages, memory.zones
    ensures memory.Arrays() && Zoned(memory.View(), ZonesOf(entries, |entries|))
  {
    for i := 0 to |entries|
      invariant memory.Arrays() && Zoned(memory.View(), ZonesOf(entries, i))
    {
      var range := UsableRange(entries[i]);
      if range.None? {
        continue;
      }
      BuildZone(memory, entries, i, range.value);
    }
  }

  /** Bitmap full of ones, every page numbered, no zone yet. */
  method EmptyMemory(bitsSize: nat) returns (memory: MemoryDescriptor)
    ensures fresh(memory) && fresh(memory.bitsMap) && fresh(memory.pages) && fresh(memory.zones)
    ensures memory.Arrays() && memory.bitsSize == bitsSize && Zoned(memory.View(), [])
  {
    memory := new MemoryDescriptor(bitsSize, PageModel.Page(None, 0, {}, 0), PageModel.Zone(0, 0, 0, 0, 0, 0, 0));
    for i := 0 to bitsSize
      invariant memory.Arrays() && memory.zonesSize == 0 && memory.bitsSize == bitsSize
      invariant forall k :: 0 <= k < |memory.used| ==> memory.used[k]
      invariant forall p :: 0 <= p < bitsSize ==>
        memory.pages[p] == PageModel.Page(None, if p < i then p * PAGE_2M else 0, {}, 0)
    {
      memory.pages[i] := memory.pages[i].(physicalAddress := i * PAGE_2M);
    }
    assert Zoned(memory.View(), []) by {
      forall p | 0 <= p < bitsSize
        ensures FreshPage(memory.View(), p)
      {
      }
    }
  }

  method Init(entries: seq<Entry>, kernelEnd: nat) returns (r: Result<MemoryDescriptor, InitError>)
    requires |entries| <= MAX_ENTRIES && Acceptable(entries)
    ensures r.Ok? <==> Bootable(entries, kernelEnd)
    ensures !Alignable(entries) ==> r == Err(AlignmentOverflow)
    ensures Alignable(entries) && !(exists p: nat :: WholeRamPage(entries, p)) ==> r == Err(NoUsablePages)
    ensures Alignable(entries) && (exists p: nat :: WholeRamPage(entries, p)) && r.Err? ==>
      Sized(entries, kernelEnd) == Err(r.error)
    ensures r.Ok? ==> fresh(r.value) && r.value.Valid()
    ensures r.Ok? ==> |r.value.View().pages| == BitsSize(entries) && SameZones(r.value.View().zones, entries)
    ensures r.Ok? ==> Built(r.value.View(), entries, ReservedPages(Sized(entries, kernelEnd).value))
    ensures r.Ok? ==> PageHistory.Inv(PageHistory.System(r.value.View(), []))
  {
    var survey := Survey(entries);
    if survey.Err? {
      return Err(survey.error);
    }
    var sized := Sized(entries, kernelEnd);
    if sized.Err? {
      return Err(sized.error);
    }
    var bitsSize := BitsSize(entries);
    ReservedFits(entries, kernelEnd);
    var memory := EmptyMemory(bitsSize);
    BuildZones(memory, entries);
    ghost var m := memory.View();
    ZonedIsConsistent(m, entries);
    forall p | 0 <= p < bitsSize
      ensures memory.pages[p].attribute == {}
    {
      assert FreshPage(m, p);
    }
    var reserved := ReservedPages(sized.value);
    ReservePages(memory, reserved);
    ReservedIsBuilt(m, memory.View(), entries, reserved);
    assert SameZones(memory.View().zones, entries);
    PhysicalEndFits(entries);
    BuiltIsSafeStart(memory.View(), entries, reserved);
    CheckDecides(memory.View());
    var totals := memory.CheckAllocationState();   // includes every assertion of init's own closing loop
    assert totals.Some?;
    return Ok(memory);
  }

  /** No page that can ever be free touches a byte of the bitmap, the page array, the zone array or the kernel image. */
  lemma {:induction false} FreePagesAvoidMetadata(m: Memory, entries: seq<Entry>, kernelEnd: nat, p: nat, byte: nat)
    requires Sized(entries, kernelEnd).Ok? && PAGE_OFFSET + TEXT <= kernelEnd
    requires Built(m, entries, ReservedPages(Sized(entries, kernelEnd).value))
    requires p < |m.pages| && !m.used[p] && p * PAGE_2M <= byte < (p + 1) * PAGE_2M
    ensures var plan := Sized(entries, kernelEnd).value;
      byte >= plan.end - PAGE_OFFSET
    ensures exists i :: 0 <= i < |entries| && entries[i].Ram() && entries[i].address <= byte < entries[i].End()
  {
    var i :| 0 <= i < |entries| && PageOf(entries[i], p);
  }

  /** Nor does it touch a byte the firmware says is anything but RAM. */
  lemma {:induction false} FreePagesAvoidReserved(
    m: Memory, entries: seq<Entry>, reserved: nat, p: nat, byte: nat, j: nat)
    requires Acceptable(entries) && Built(m, entries, reserved)
    requires p < |m.pages| && !m.used[p] && p * PAGE_2M <= byte < (p + 1) * PAGE_2M
    requires j < |entries| && entries[j].address <= byte < entries[j].End()
    ensures entries[j].kind == 1
  {
    var i :| 0 <= i < |entries| && PageOf(entries[i], p);
    if i != j { EntriesCompatible(entries, i, j); }
  }

  // ---------- sizes and places in numbers

  /** Sizes are measured up to the end of the highest entry that is not empty, of whatever type. */
  lemma {:induction false} PhysicalEndReached(entries: seq<Entry>)
    ensures PhysicalEnd(entries) == 0 ||
      exists i :: 0 <= i < |entries| && entries[i].length != 0 &&
        PhysicalEnd(entries) == entries[i].address + entries[i].length
  {
    if entries != [] {
      var n := |entries| - 1;
      PhysicalEndReached(entries[..n]);
      if PhysicalEnd(entries) != 0 && PhysicalEnd(entries) == PhysicalEnd(entries[..n]) {
        var i :| 0 <= i < n && entries[..n][i].length != 0
          && PhysicalEnd(entries[..n]) == entries[..n][i].address + entries[..n][i].length;
        assert entries[i].length != 0 && PhysicalEnd(entries) == entries[i].address + entries[i].length;
      } else if PhysicalEnd(entries) != 0 {
        assert entries[n].length != 0 && PhysicalEnd(entries) == entries[n].address + entries[n].length;
      }
    }
  }

  /** `bits` pages of 2 MiB reach the end of the map, and one less would not. */
  ghost predicate CoversMap(entries: seq<Entry>, bits: nat) {
    && (forall i :: 0 <= i < |entries| && entries[i].length != 0 ==>
      entries[i].address + entries[i].length <= bits * 0x20_0000)
    && (bits == 0 ||
      exists i :: 0 <= i < |entries| && entries[i].length != 0 &&
        entries[i].address + entries[i].length > (bits - 1) * 0x20_0000)
  }

  /** Some entry ends so high that rounding up to 2 MiB overflows. */
  ghost predicate RoundingOverflows(entries: seq<Entry>) {
    exists i :: 0 <= i < |entries| && entries[i].length != 0
      && entries[i].address + entries[i].length + 0x1F_FFFF >= 0x1_0000_0000_0000_0000
  }

  lemma {:induction false} BitsSizeCoversMap(entries: seq<Entry>)
    ensures RoundingOverflows(entries) <==> PhysicalEnd(entries) + PAGE_2M - 1 >= TWO64
    ensures !RoundingOverflows(entries) ==> CoversMap(entries, BitsSize(entries))
  {
    PhysicalEndReached(entries);
    if PhysicalEnd(entries) + PAGE_2M - 1 < TWO64 {
      var bits := BitsSize(entries);
      assert PhysicalEnd(entries) <= bits * 0x20_0000 < PhysicalEnd(entries) + 0x20_0000;
    }
  }

  lemma {:induction false} CoversMapUnique(entries: seq<Entry>, a: nat, b: nat)
    requires CoversMap(entries, a) && CoversMap(entries, b)
    ensures a == b
  {
  }

  /** Bitmap, page array and zone array one behind the other, each at the first boundary that is free. */
  predicate PlacedBehind(kernelEnd: nat, bits: nat, plan: Plan) {
    && plan.bitmap % 0x1000 == 0 && kernelEnd <= plan.bitmap < kernelEnd + 0x1000
    && plan.pages % 0x1000 == 0 && (var free := plan.bitmap + (bits + 63) / 64 * 8; free <= plan.pages < free + 0x1000)
    && plan.zones % 0x1000 == 0 && (var free := plan.pages + bits * 40; free <= plan.zones < free + 0x1000)
    && plan.end % 0x100 == 0 && (var free := plan.zones + 32 * 80; free <= plan.end < free + 0x100)
  }

  /** No sum on the way leaves the 64 bits. */
  predicate PlacementFits(kernelEnd: nat, bits: nat, plan: Plan) {
    && kernelEnd + 0xFFF < 0x1_0000_0000_0000_0000
    && plan.bitmap + (bits + 63) / 64 * 8 + 0xFFF < 0x1_0000_0000_0000_0000
    && plan.pages + bits * 40 + 0xFFF < 0x1_0000_0000_0000_0000
    && plan.zones + 32 * 80 + 0xFF < 0x1_0000_0000_0000_0000
  }

  lemma {:induction false} SameMultiple(a: nat, b: nat, k: nat)
    requires k > 0 && a % k == 0 && b % k == 0 && a - k < b < a + k
    ensures a == b
  {
    assert a == a / k * k && b == b / k * k;
    var d := a / k - b / k;
    assert a - b == d * k;
    assert d >= 1 ==> d * k >= k;
    assert d <= -1 ==> d * k + k <= 0;
  }

  lemma {:induction false} NextBoundary(address: nat, alignment: nat, r: nat)
    requires alignment > 0 && address + alignment - 1 < TWO64
    requires r % alignment == 0 && address <= r < address + alignment
    ensures AlignUp(address, alignment) == Some(r)
  {
    var a := AlignUp(address, alignment).value;
    SameMultiple(a, r, alignment);
  }

  /** The planned places are those, and there is a plan unless a sum overflows. */
  lemma {:induction false} PlanIsPlaced(kernelEnd: nat, bits: nat, plan: Plan)
    ensures PlanMetadata(kernelEnd, bits) == Some(plan) <==>
      PlacedBehind(kernelEnd, bits, plan) && PlacementFits(kernelEnd, bits, plan)
  {
    if PlacedBehind(kernelEnd, bits, plan) && PlacementFits(kernelEnd, bits, plan) {
      NextBoundary(kernelEnd, PAGE_4K, plan.bitmap);
      NextBoundary(plan.bitmap + (bits + 63) / 64 * 8, PAGE_4K, plan.pages);
      NextBoundary(plan.pages + bits * SIZE_OF_PAGE, PAGE_4K, plan.zones);
      NextBoundary(plan.zones + MAX_ZONES * SIZE_OF_ZONE, 256, plan.end);
    }
  }

  /** The page lies in an entry of RAM; every page the allocator can own does. */
  lemma {:induction false} WholePageInRam(entries: seq<Entry>, p: nat)
    ensures WholeRamPage(entries, p) <==> InRam(entries, p * 0x20_0000, (p + 1) * 0x20_0000)
  {
    if WholeRamPage(entries, p) {
      var i :| 0 <= i < |entries| && PageOf(entries[i], p);
    }
    if InRam(entries, p * 0x20_0000, (p + 1) * 0x20_0000) {
      var i :| 0 <= i < |entries| && entries[i].kind == 1
        && entries[i].address <= p * 0x20_0000 && (p + 1) * 0x20_0000 <= entries[i].address + entries[i].length;
      assert PageOf(entries[i], p);
    }
  }

  /** The three answers of the size checks once the places are known: too large, not in RAM, or the plan. */
  lemma {:induction false} SizedAnswers(entries: seq<Entry>, kernelEnd: nat, bits: nat, plan: Plan)
    requires !RoundingOverflows(entries) && CoversMap(entries, bits)
    requires PlacedBehind(kernelEnd, bits, plan) && PlacementFits(kernelEnd, bits, plan)
    ensures Sized(entries, kernelEnd) ==
      if !(0xffff_8000_0000_0000 <= plan.end <= 0xffff_8000_00A0_0000) then Err(MetadataTooLarge)
      else if !(plan.end > 0xffff_8000_0010_0000 && InRam(entries, 0x10_0000, plan.end - 0xffff_8000_0000_0000))
      then Err(KernelNotInRam)
      else Ok(plan)
  {
    BitsSizeCoversMap(entries);
    CoversMapUnique(entries, bits, BitsSize(entries));
    PlanIsPlaced(kernelEnd, bits, plan);
    if plan.end >= PAGE_OFFSET { UsableIsInRam(entries, TEXT, plan.end - PAGE_OFFSET); }
  }

  /** The two answers that need no place: rounding the map's end overflows, or placing the metadata does. */
  lemma {:induction false} SizedOverflows(entries: seq<Entry>, kernelEnd: nat)
    ensures Sized(entries, kernelEnd) == Err(AlignmentOverflow) <==> RoundingOverflows(entries)
    ensures Sized(entries, kernelEnd) == Err(MetadataOverflow) <==>
      !RoundingOverflows(entries) && forall bits: nat, plan: Plan ::
        CoversMap(entries, bits) && PlacedBehind(kernelEnd, bits, plan) ==> !PlacementFits(kernelEnd, bits, plan)
  {
    BitsSizeCoversMap(entries);
    if !RoundingOverflows(entries) {
      var bits := BitsSize(entries);
      if PlanMetadata(kernelEnd, bits).Some? {
        PlanIsPlaced(kernelEnd, bits, PlanMetadata(kernelEnd, bits).value);
      } else {
        forall b: nat, plan: Plan | CoversMap(entries, b) && PlacedBehind(kernelEnd, b, plan)
          ensures !PlacementFits(kernelEnd, b, plan)
        {
          CoversMapUnique(entries, bits, b);
          PlanIsPlaced(kernelEnd, bits, plan);
        }
      }
    }
  }

  /** No entry of RAM starts so high that rounding its start up to 2 MiB overflows. */
  predicate StartsRound(entries: seq<Entry>) {
    forall i :: 0 <= i < |entries| && entries[i].kind == 1 && entries[i].length != 0 ==>
      entries[i].address + 0x1F_FFFF < 0x1_0000_0000_0000_0000
  }

  /** Some 2 MiB page lies wholly in an entry of RAM. */
  ghost predicate SomeWholePage(entries: seq<Entry>) {
    exists p: nat :: InRam(entries, p * 0x20_0000, (p + 1) * 0x20_0000)
  }

  lemma {:induction false} AlignableStarts(entries: seq<Entry>)
    requires Acceptable(entries)
    ensures Alignable(entries) <==> StartsRound(entries)
  {
    forall i | 0 <= i < |entries|
      ensures entries[i].EndFits()
      ensures AlignFits(entries[i]) <==>
        (entries[i].kind == 1 && entries[i].length != 0 ==> entries[i].address + 0x1F_FFFF < 0x1_0000_0000_0000_0000)
    {
    }
  }

  lemma {:induction false} WholePageExists(entries: seq<Entry>)
    ensures (exists p: nat :: WholeRamPage(entries, p)) <==> SomeWholePage(entries)
  {
    if p: nat :| WholeRamPage(entries, p) {
      WholePageInRam(entries, p);
    }
    if p: nat :| InRam(entries, p * 0x20_0000, (p + 1) * 0x20_0000) {
      WholePageInRam(entries, p);
    }
  }

  /**
   When `init` succeeds, in addresses: no RAM entry starts too high to be rounded up, some whole 2 MiB page
   is RAM, and one entry of RAM reaches from the kernel's first byte to the end of the metadata, which lies
   in the 10 MiB that boot has mapped. Nothing is asked of the memory below 1 MiB.
   */
  lemma {:induction false} InitSucceeds(entries: seq<Entry>, kernelEnd: nat, bits: nat, plan: Plan)
    requires Acceptable(entries) && !RoundingOverflows(entries) && CoversMap(entries, bits)
    requires PlacedBehind(kernelEnd, bits, plan) && PlacementFits(kernelEnd, bits, plan)
    ensures Bootable(entries, kernelEnd) <==>
      && StartsRound(entries) && SomeWholePage(entries)
      && 0xffff_8000_0010_0000 < plan.end <= 0xffff_8000_00A0_0000
      && InRam(entries, 0x10_0000, plan.end - 0xffff_8000_0000_0000)
    ensures Bootable(entries, kernelEnd) ==> Sized(entries, kernelEnd) == Ok(plan)
  {
    SizedAnswers(entries, kernelEnd, bits, plan);
    AlignableStarts(entries);
    WholePageExists(entries);
  }

  /** The ordinary map of a 2 GiB machine, with its hole below 1 MiB: `init` succeeds. */
  lemma {:induction false} OrdinaryMap()
    ensures var entries := [Entry(0, 0x9_F000, 1), Entry(0x10_0000, 0x7FF0_0000, 1)];
      Acceptable(entries) && Bootable(entries, 0xffff_8000_0014_0000)
  {
    var low, high := Entry(0, 0x9_F000, 1), Entry(0x10_0000, 0x7FF0_0000, 1);
    var entries := [low, high];
    assert entries[0] == low && entries[1] == high;
    var plan := Plan(0xffff_8000_0014_0000, 0xffff_8000_0014_1000, 0xffff_8000_0014_B000, 0xffff_8000_0014_BA00);
    assert entries[1].address + entries[1].length > (1024 - 1) * 0x20_0000;
    InitSucceeds(entries, 0xffff_8000_0014_0000, 1024, plan);
    assert InRam(entries, 1 * 0x20_0000, (1 + 1) * 0x20_0000);
  }

  /** Which pages are free afterwards: those that lie wholly in RAM and wholly above the metadata. */
  lemma {:induction false} FreePagesAfterInit(m: Memory, entries: seq<Entry>, kernelEnd: nat, p: nat)
    requires Sized(entries, kernelEnd).Ok? && Built(m, entries, ReservedPages(Sized(entries, kernelEnd).value))
    requires p < |m.pages|
    ensures !m.used[p] <==>
      && Sized(entries, kernelEnd).value.end <= 0xffff_8000_0000_0000 + p * 0x20_0000
      && InRam(entries, p * 0x20_0000, (p + 1) * 0x20_0000)
    ensures m.pages[p].attribute ==
      if 0xffff_8000_0000_0000 + p * 0x20_0000 < Sized(entries, kernelEnd).value.end
      then {PageModel.PageTableMapped, PageModel.KernelInit, PageModel.Active, PageModel.Kernel}
      else {}
  {
    WholePageInRam(entries, p);
  }

  /** The zone holds all whole pages of the entry, which is RAM. */
  predicate ZoneOf(entry: Entry, zone: Zone) {
    && entry.kind == 1 && entry.length != 0
    && zone.startAddress % 0x20_0000 == 0 && entry.address <= zone.startAddress < entry.address + 0x20_0000
    && zone.endAddress % 0x20_0000 == 0
    && entry.address + entry.length - 0x20_0000 < zone.endAddress <= entry.address + entry.length
    && zone.startAddress < zone.endAddress
    && zone.firstPage * 0x20_0000 == zone.startAddress
    && zone.numberPages * 0x20_0000 == zone.endAddress - zone.startAddress
  }

  /** The zones are, in table order, the whole 2 MiB pages inside the entries of RAM. */
  lemma {:induction false} ZoneInEntry(entries: seq<Entry>, n: nat, z: nat)
    requires n <= |entries| && Alignable(entries) && z < |ZonesOf(entries, n)|
    ensures exists i :: 0 <= i < n && ZoneOf(entries[i], ZonesOf(entries, n)[z])
  {
    var i := ZoneSource(entries, n, z);
    assert ZoneOf(entries[i], ZonesOf(entries, n)[z]);
  }
}
