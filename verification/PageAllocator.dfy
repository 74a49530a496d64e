/** The memory descriptor: in-place bookkeeping over the packed words, the page array and the zone array. */
module PageAllocator {
  import opened Prelude
  import opened Bits
  import opened Bitmap
  import PageModel
  import opened PageRuns

  type Page = PageModel.Page
  type Zone = PageModel.Zone
  type Flag = PageModel.Flag
  type Memory = PageModel.Memory

  const MAX_ZONES: nat := 32

  /** The part of the state that the consistency check relies on: it indexes the page array by zone bounds. */
  ghost predicate ZonesInside(m: Memory) {
    |m.pages| <= |m.used| && forall z :: 0 <= z < |m.zones| ==> m.zones[z].End() <= |m.pages|
  }

  /** Page p has the zone z it lies in as its owner, and its own address; bit, attribute and references agree. */
  predicate PageTellsTruth(m: Memory, z: nat, p: nat)
    requires p < |m.pages| <= |m.used|
  {
    && m.pages[p].zone == Some(z) && m.pages[p].physicalAddress == p * PageModel.PAGE_2M
    && (m.used[p] <==> m.pages[p].attribute != {}) && (m.pages[p].attribute != {} <==> m.pages[p].referenceCount > 0)
  }

  /** A hole or a reserved page is marked used. */
  predicate KeptBack(m: Memory, p: nat)
    requires p < |m.pages| <= |m.used|
  {
    m.pages[p].zone.None? || PageModel.KernelInit in m.pages[p].attribute ==> m.used[p]
  }

  /** The page numbers from a zone's start up to its end; none when the bounds are the wrong way round. */
  function Span(zone: Zone): (span: (nat, nat))
    ensures span.0 <= span.1 <= zone.End()
  {
    if zone.Start() < zone.End() then (zone.Start(), zone.End()) else (0, 0)
  }

  ghost predicate ZoneTellsTruth(m: Memory, z: nat)
    requires z < |m.zones| && m.zones[z].End() <= |m.pages| <= |m.used|
  {
    var zone := m.zones[z];
    var (start, end) := Span(zone);
    && (forall p :: start <= p < end ==> PageTellsTruth(m, z, p))
    && zone.pageFreeCount == PageModel.FreeIn(m.used, start, end)
    && zone.pageUsingCount == end - start - zone.pageFreeCount
    && zone.totalPagesRefCount == PageModel.RefsIn(m.pages, start, end)
    && zone.numberPages == end - start
  }

  ghost predicate TellsTruth(m: Memory)
    requires ZonesInside(m)
  {
    && (forall z :: 0 <= z < |m.zones| ==> ZoneTellsTruth(m, z))
    && (forall p :: 0 <= p < |m.pages| ==> KeptBack(m, p))
  }

  function TotalUsing(zones: seq<Zone>): int {
    if zones == [] then 0 else zones[0].pageUsingCount + TotalUsing(zones[1..])
  }

  function TotalRefs(zones: seq<Zone>): int {
    if zones == [] then 0 else zones[0].totalPagesRefCount + TotalRefs(zones[1..])
  }

  /** Pages used, pages free and references, over all zones. */
  function Totals(zones: seq<Zone>): (int, int, int) {
    (TotalUsing(zones), TotalFree(zones), TotalRefs(zones))
  }

  lemma {:induction false} TotalsAppend(zones: seq<Zone>, zone: Zone)
    ensures TotalFree(zones + [zone]) == TotalFree(zones) + zone.pageFreeCount
    ensures TotalUsing(zones + [zone]) == TotalUsing(zones) + zone.pageUsingCount
    ensures TotalRefs(zones + [zone]) == TotalRefs(zones) + zone.totalPagesRefCount
  {
    if zones == [] {
      assert zones + [zone] == [zone];
    } else {
      assert (zones + [zone])[1..] == zones[1..] + [zone];
      TotalsAppend(zones[1..], zone);
    }
  }

  lemma {:induction false} TotalsNext(zones: seq<Zone>, i: nat)
    requires i < |zones|
    ensures TotalFree(zones[..i + 1]) == TotalFree(zones[..i]) + zones[i].pageFreeCount
    ensures TotalUsing(zones[..i + 1]) == TotalUsing(zones[..i]) + zones[i].pageUsingCount
    ensures TotalRefs(zones[..i + 1]) == TotalRefs(zones[..i]) + zones[i].totalPagesRefCount
  {
    assert zones[..i + 1] == zones[..i] + [zones[i]];
    TotalsAppend(zones[..i], zones[i]);
  }

  /** Skipping a zone on either size shortcut loses no place. */
  lemma {:induction false} SkipIsSafe(m: Memory, area: AllocationArea, count: nat, i: nat)
    requires PageModel.Consistent(m) && i < |m.zones| && count > 0
    requires count > Limit(m.zones[i], area) - m.zones[i].Start() || count > m.zones[i].pageFreeCount
    ensures forall f: nat :: !Fits(m, area, count, i, f)
  {
    forall f: nat | Fits(m, area, count, i, f)
      ensures false
    {
      ShortcutsAreSafe(m, area, count, i, f);
    }
  }

  class MemoryDescriptor {
    const bitsMap: array<nat>
    const bitsSize: nat
    const pages: array<Page>
    const zones: array<Zone>   // MAX_ZONES slots
    var zonesSize: nat

    ghost var used: seq<bool>  // the bitmap, one truth value per bit

    /** The arrays have the sizes `init` gave them. */
    ghost predicate Arrays()
      reads this, bitsMap
    {
      && bitsMap.Length == (bitsSize + 63) / 64 && Packs(bitsMap[..], used)
      && pages.Length == bitsSize
      && zonesSize <= zones.Length == MAX_ZONES
    }

    /** The bookkeeping as a value. */
    ghost function View(): (m: Memory)
      requires zonesSize <= zones.Length
      reads this, pages, zones
    {
      PageModel.Memory(used, pages[..], zones[..zonesSize])
    }

    /** The state every operation starts from and leaves: all three forms agree. */
    ghost predicate Valid()
      reads this, bitsMap, pages, zones
    {
      Arrays() && PageModel.Consistent(View())
    }

    constructor (bitsSize: nat, emptyPage: Page, emptyZone: Zone)
      ensures this.bitsSize == bitsSize && zonesSize == 0
      ensures fresh(bitsMap) && fresh(pages) && fresh(zones)
      ensures Arrays()
      ensures forall i :: 0 <= i < |used| ==> used[i]
      ensures forall p :: 0 <= p < bitsSize ==> pages[p] == emptyPage
    {
      var words := new nat[(bitsSize + 63) / 64](_ => Pow2(64) - 1);
      this.bitsMap := words;
      this.bitsSize := bitsSize;
      this.pages := new Page[bitsSize](_ => emptyPage);
      this.zones := new Zone[MAX_ZONES](_ => emptyZone);
      this.zonesSize := 0;
      this.used := seq(64 * ((bitsSize + 63) / 64), _ => true);
      new;
      FilledPacks(bitsMap[..], used);
    }

    method IsUsed(index: nat) returns (b: bool)
      requires Arrays() && index < bitsSize
      ensures b == used[index]
    {
      b := And(bitsMap[index / 64], Pow2(index % 64)) != 0;
      TestReads(bitsMap[..], used, index);
    }

    method SetUsed(index: nat, value: bool)
      requires Arrays() && index < bitsSize
      modifies bitsMap, `used
      ensures Arrays() && used == old(used)[index := value]
    {
      WritesOneBit(bitsMap[..], used, index, value);
      ghost var words := bitsMap[..];
      var word := index / 64;
      var mask := Pow2(index % 64);
      bitsMap[word] := if value then Or(bitsMap[word], mask) else AndNot(bitsMap[word], mask);
      used := used[index := value];
      assert bitsMap[..] == words[word := Rewritten(words[word], index % 64, value)];
    }

    /** The zone's `page_free_count > 0` assertion never fires, in any state the allocator can be in. */
    method InitPage(index: nat, attributes: set<Flag>)
      requires Valid() && index < bitsSize
      modifies bitsMap, pages, zones, `used
      ensures Arrays() && (Valid() <==> PageModel.Marks(old(pages[index]), attributes))
      ensures View() == PageModel.InitPage(old(View()), index, attributes)
    {
      ghost var m := View();
      PageModel.InitPageAgrees(m, index, attributes);
      assert PageModel.PageShape(m, index);
      var page := pages[index];
      if page.attribute == {} {
        pages[index] := page.(attribute := attributes, referenceCount := 1);
        if page.zone.Some? {
          PageModel.FreePageIsCounted(m, index);
          var zone := zones[page.zone.value];
          assert zone.pageFreeCount > 0;
          zones[page.zone.value] := zone.(
            pageUsingCount := zone.pageUsingCount + 1,
            pageFreeCount := zone.pageFreeCount - 1,
            totalPagesRefCount := zone.totalPagesRefCount + 1);
        }
      } else if (page.attribute + attributes) * {PageModel.Referenced, PageModel.KernelShareToUser} != {} {
        pages[index] := page.(attribute := page.attribute + attributes, referenceCount := page.referenceCount + 1);
        if page.zone.Some? {
          var zone := zones[page.zone.value];
          zones[page.zone.value] := zone.(totalPagesRefCount := zone.totalPagesRefCount + 1);
        }
      } else {
        pages[index] := page.(attribute := page.attribute + attributes);
      }
      assert pages[..] == m.pages[index := PageModel.PageAfterInit(page, attributes)];
      assert zones[..zonesSize] == PageModel.InitPage(m, index, attributes).zones;
      SetUsed(index, true);
    }

    method CleanPage(index: nat)
      requires Valid() && index < bitsSize && PageModel.Cleanable(pages[index])
      modifies bitsMap, pages, zones, `used
      ensures Valid()
      ensures View() == PageModel.CleanPage(old(View()), index)
    {
      ghost var m := View();
      PageModel.CleanPageAgrees(m, index);
      assert PageModel.PageShape(m, index);
      var page := pages[index];
      if page.attribute != {} {
        var zone := zones[page.zone.value];
        pages[index] := page.(referenceCount := page.referenceCount - 1);
        zones[page.zone.value] := zone.(totalPagesRefCount := zone.totalPagesRefCount - 1);
        if pages[index].referenceCount == 0 {
          pages[index] := pages[index].(attribute := {});
          zones[page.zone.value] := zones[page.zone.value].(
            pageUsingCount := zone.pageUsingCount - 1,
            pageFreeCount := zone.pageFreeCount + 1);
          SetUsed(index, false);
        }
      }
      assert View() == PageModel.CleanPage(m, index);
    }

    /** The page-by-page scan of one zone: the first `count` consecutive free pages in [start, end). */
    method ScanZone(start: nat, end: nat, count: nat) returns (found: Option<nat>)
      requires Arrays() && start <= end <= bitsSize && count > 0
      ensures found.None? ==> forall f: nat :: start <= f && f + count <= end ==> !FreeRun(View(), f, count)
      ensures found.Some? ==> start <= found.value && found.value + count <= end && FreeRun(View(), found.value, count)
      ensures found.Some? ==> forall f: nat :: start <= f < found.value ==> !FreeRun(View(), f, count)
    {
      ghost var m := View();
      var consecutive := 0;
      for index := start to end
        invariant consecutive < count && consecutive <= index - start
        invariant forall p :: index - consecutive <= p < index ==> !m.used[p]
        invariant index - consecutive == start || m.used[index - consecutive - 1]
        invariant forall f: nat :: start <= f && f + count <= index ==> !FreeRun(m, f, count)
      {
        var used := IsUsed(index);
        if used {
          consecutive := 0;
          continue;
        }
        consecutive := consecutive + 1;
        if consecutive != count {
          continue;
        }
        return Some(index + 1 - count);
      }
      return None;
    }

    /** The zones in table order; two size shortcuts decide which of them are scanned at all. */
    method FindRun(area: AllocationArea, count: nat) returns (found: Option<nat>)
      requires Valid() && count > 0
      ensures found.None? ==> forall z: nat, f: nat :: !Fits(View(), area, count, z, f)
      ensures found.Some? ==> exists z: nat :: FirstFit(View(), area, count, z, found.value)
    {
      ghost var m := View();
      for i := 0 to zonesSize
        invariant forall z: nat, f: nat :: Fits(m, area, count, z, f) ==> i <= z
      {
        var zone := zones[i];
        var start := zone.startAddress / PageModel.PAGE_2M;
        var endAddress := match area
          case Mapped => if zone.endAddress <= PageModel.DIRECT_RAM_END then zone.endAddress
            else PageModel.DIRECT_RAM_END
          case Any => zone.endAddress;
        var end := endAddress / PageModel.PAGE_2M;
        var room := if start <= end then end - start else 0;   // saturating_sub
        if count > room || count > zone.pageFreeCount {
          SkipIsSafe(m, area, count, i);
          continue;
        }
        assert m.zones[i] == zone && PageModel.ZoneShape(zone, bitsSize);
        assert start == zone.Start() && end == Limit(zone, area);
        found := ScanZone(start, end, count);
        assert View() == m;
        if found.Some? {
          assert Fits(m, area, count, i, found.value);
          assert FirstFit(m, area, count, i, found.value);
          return;
        }
      }
      return None;
    }

    /** The pages from `first` to `page` are taken, the others are as in `m`. */
    ghost predicate TakenTo(m: Memory, first: nat, page: nat)
      reads this, bitsMap, pages, zones
    {
      && Arrays() && PageModel.Consistent(m) && first <= page <= |m.pages|
      && View() == Commit(m, first, page - first)
    }

    /** The next page of a run that was found free. */
    method TakeNext(page: nat, ghost m: Memory, ghost first: nat)
      requires TakenTo(m, first, page) && page < |m.pages|
      modifies bitsMap, pages, zones, `used
      ensures TakenTo(m, first, page + 1)
    {
      CommitNext(m, first, page - first);
      InitPage(page, RunAttributes(page));
    }

    /** `init_page` on every page of a run that was found free. */
    method TakeRun(first: nat, count: nat)
      requires Valid() && first + count <= bitsSize
      modifies bitsMap, pages, zones, `used
      ensures Valid() && View() == Commit(old(View()), first, count)
    {
      ghost var m := View();
      for page := first to first + count
        invariant TakenTo(m, first, page)
      {
        TakeNext(page, m, first);
      }
    }

    /** A request takes the first fit or changes nothing at all. */
    method Allocate(area: AllocationArea, count: nat) returns (r: Result<PageRun, AllocationError>)
      requires Valid()
      modifies bitsMap, pages, zones, `used
      ensures Valid()
      ensures (r, View()) == PageRuns.Allocate(old(View()), area, count)
    {
      AllocateOutcome(View(), area, count);
      if count == 0 {
        return Err(InvalidCount);
      }
      var found := FindRun(area, count);
      if found.None? {
        return Err(OutOfMemory);
      }
      ghost var z: nat :| FirstFit(View(), area, count, z, found.value);
      AllocateTakes(View(), area, count, z, found.value);
      TakeRun(found.value, count);
      return Ok(PageRun(found.value, count));
    }

    /** The pages from `first` to `page` are cleared, the others are as in `m`. */
    ghost predicate ClearedTo(m: Memory, first: nat, page: nat)
      reads this, bitsMap, pages, zones
    {
      && Arrays() && PageModel.Consistent(m) && first <= page <= |m.pages|
      && (forall p :: first <= p < page ==> Returnable(m, p))
      && View() == Clear(m, first, page - first)
    }

    /** The next page of a validated run. */
    method ClearNextPage(page: nat, ghost m: Memory, ghost first: nat)
      requires ClearedTo(m, first, page) && page < |m.pages| && Returnable(m, page)
      modifies bitsMap, pages, zones, `used
      ensures ClearedTo(m, first, page + 1)
    {
      ClearNext(m, first, page - first);
      CleanPage(page);
    }

    /** `clean_page` on every page of a validated run. */
    method ClearRun(first: nat, count: nat)
      requires Valid() && first + count <= bitsSize
      requires forall p :: first <= p < first + count ==> Returnable(View(), p)
      modifies bitsMap, pages, zones, `used
      ensures Valid() && View() == Clear(old(View()), first, count)
    {
      ghost var m := View();
      for page := first to first + count
        invariant ClearedTo(m, first, page)
      {
        ClearNextPage(page, m, first);
      }
    }

    /** The first half of `release`: every check is made before anything is changed. */
    method ValidateRun(run: PageRun) returns (ok: bool)
      requires Arrays()
      ensures ok == Releasable(View(), run)
    {
      if run.first + run.count >= TWO64 {
        return false;
      }
      var end := run.first + run.count;
      if !(run.count > 0 && end <= bitsSize) {
        return false;
      }
      var zone := pages[run.first].zone;
      if zone.None? {
        return false;
      }
      for index := run.first to end
        invariant forall p :: run.first <= p < index ==> pages[p].zone == zone && Returnable(View(), p)
      {
        var page := pages[index];
        var used := IsUsed(index);
        if page.zone != zone || !used || !(page.attribute != {} && PageModel.KernelInit !in page.attribute)
          || page.referenceCount != 1
        {
          assert View().pages[index] == page;
          return false;
        }
      }
      return true;
    }

    /** Validate the whole run, then clear it. A refused run (a failed assertion in the source) changes nothing. */
    method Release(run: PageRun) returns (ok: bool)
      requires Valid()
      modifies bitsMap, pages, zones, `used
      ensures Valid()
      ensures ok == PageRuns.Release(old(View()), run).Some?
      ensures View() == if ok then PageRuns.Release(old(View()), run).value else old(View())
    {
      ok := ValidateRun(run);
      if ok {
        ClearRun(run.first, run.count);
      }
    }

    /** One zone of the consistency check: its pages' owner, address, bit and descriptor, then its counters. */
    method CheckZone(i: nat) returns (counts: Option<(int, int, int)>)
      requires Arrays() && i < zonesSize && zones[i].End() <= bitsSize
      ensures counts.Some? <==> ZoneTellsTruth(View(), i)
      ensures counts.Some? ==>
        counts.value == (zones[i].pageUsingCount, zones[i].pageFreeCount, zones[i].totalPagesRefCount)
    {
      ghost var m := View();
      var zone := zones[i];
      assert m.zones[i] == zone;
      var (start, end) := Span(zone);
      var using: int, free: int, refs: int := 0, 0, 0;
      for index := start to end
        invariant forall p :: start <= p < index ==> PageTellsTruth(m, i, p)
        invariant free == PageModel.FreeIn(m.used, start, index) && using == index - start - free
        invariant refs == PageModel.RefsIn(m.pages, start, index)
      {
        var page := pages[index];
        var b := IsUsed(index);
        if page.zone != Some(i) || page.physicalAddress != index * PageModel.PAGE_2M
          || b != (page.attribute != {}) || (page.attribute != {}) != (page.referenceCount > 0)
        {
          assert !PageTellsTruth(m, i, index);
          return None;
        }
        if b {
          using := using + 1;
        } else {
          free := free + 1;
        }
        refs := refs + page.referenceCount;
      }
      if (using, free, refs) != (zone.pageUsingCount, zone.pageFreeCount, zone.totalPagesRefCount)
        || using + free != zone.numberPages
      {
        return None;
      }
      return Some((using, free, refs));
    }

    /** The last loop of the check: no hole and no reserved page is free. */
    method CheckKeptBack() returns (ok: bool)
      requires Arrays()
      ensures ok <==> forall p :: 0 <= p < bitsSize ==> KeptBack(View(), p)
    {
      ghost var m := View();
      for index := 0 to bitsSize
        invariant forall p :: 0 <= p < index ==> KeptBack(m, p)
      {
        var page := pages[index];
        if page.zone.None? || PageModel.KernelInit in page.attribute {
          var b := IsUsed(index);
          if !b {
            assert !KeptBack(View(), index);
            return false;
          }
        }
        assert KeptBack(m, index);
      }
      return true;
    }

    /** The loop over the zones. */
    method CheckZones() returns (totals: Option<(int, int, int)>)
      requires Arrays() && ZonesInside(View())
      ensures totals.Some? <==> forall z :: 0 <= z < zonesSize ==> ZoneTellsTruth(View(), z)
      ensures totals.Some? ==> totals.value == Totals(View().zones)
    {
      ghost var m := View();
      var using: int, free: int, refs: int := 0, 0, 0;
      for i := 0 to zonesSize
        invariant forall z :: 0 <= z < i ==> ZoneTellsTruth(m, z)
        invariant (using, free, refs) == Totals(m.zones[..i])
      {
        assert m.zones[i] == zones[i];
        var counts := CheckZone(i);
        if counts.None? {
          return None;
        }
        TotalsNext(m.zones, i);
        using, free, refs := using + counts.value.0, free + counts.value.1, refs + counts.value.2;
      }
      assert m.zones[..zonesSize] == m.zones;
      return Some((using, free, refs));
    }

    /** `check_allocation_state`: all it needs of the state is that the zones lie inside the page array. */
    method CheckAllocationState() returns (totals: Option<(int, int, int)>)
      requires Arrays() && ZonesInside(View())
      ensures totals.Some? <==> TellsTruth(View())
      ensures totals.Some? ==> totals.value == Totals(View().zones)
    {
      totals := CheckZones();
      if totals.None? {
        return None;
      }
      var kept := CheckKeptBack();
      return if kept then totals else None;
    }
  }

  lemma {:induction false} ConsistentTellsTruth(m: Memory)
    requires PageModel.Consistent(m) && ZonesInside(m)
    ensures TellsTruth(m)
  {
    forall z | 0 <= z < |m.zones|
      ensures ZoneTellsTruth(m, z)
    {
      assert PageModel.ZoneShape(m.zones[z], |m.pages|) && PageModel.ZoneAgrees(m, z);
      forall p | m.zones[z].Start() <= p < m.zones[z].End()
        ensures PageTellsTruth(m, z, p)
      {
        assert PageModel.PageAgrees(m, p) && PageModel.PageShape(m, p) && m.zones[z].Has(p);
      }
    }
    forall p | 0 <= p < |m.pages|
      ensures KeptBack(m, p)
    {
      assert PageModel.PageAgrees(m, p);
    }
  }

  lemma {:induction false} TruthIsConsistent(m: Memory)
    requires PageModel.Shape(m) && ZonesInside(m) && TellsTruth(m)
    ensures PageModel.Consistent(m)
  {
    forall p | 0 <= p < |m.pages|
      ensures PageModel.PageAgrees(m, p)
    {
      assert KeptBack(m, p) && PageModel.PageShape(m, p);
      if m.pages[p].zone.Some? {
        assert ZoneTellsTruth(m, m.pages[p].zone.value);
        assert PageTellsTruth(m, m.pages[p].zone.value, p);
      }
    }
    forall z | 0 <= z < |m.zones|
      ensures PageModel.ZoneAgrees(m, z)
    {
      assert ZoneTellsTruth(m, z) && PageModel.ZoneShape(m.zones[z], |m.pages|);
    }
  }

  /** On a layout that `init` can have built, passing the check is agreement of the three forms, and nothing less. */
  lemma {:induction false} CheckDecides(m: Memory)
    requires PageModel.Shape(m)
    ensures ZonesInside(m) && (TellsTruth(m) <==> PageModel.Consistent(m))
  {
    forall z | 0 <= z < |m.zones|
      ensures m.zones[z].End() <= |m.pages|
    {
      assert PageModel.ZoneShape(m.zones[z], |m.pages|);
    }
    if PageModel.Consistent(m) {
      ConsistentTellsTruth(m);
    }
    if TellsTruth(m) {
      TruthIsConsistent(m);
    }
  }

  /** What a zone must look like to pass: its pages one by one, and its counters. */
  lemma {:induction false} ZoneTruthTold(m: Memory, z: nat)
    requires |m.pages| <= |m.used| && z < |m.zones|
    requires m.zones[z].startAddress / 0x20_0000 <= m.zones[z].endAddress / 0x20_0000 <= |m.pages|
    ensures ZoneTellsTruth(m, z) <==>
      var zone := m.zones[z];
      var start, end := zone.startAddress / 0x20_0000, zone.endAddress / 0x20_0000;
      && (forall p :: start <= p < end ==>
        && m.pages[p].zone == Some(z) && m.pages[p].physicalAddress == p * 0x20_0000
        && (m.used[p] <==> m.pages[p].attribute != {}) && (m.used[p] <==> m.pages[p].referenceCount > 0))
      && zone.numberPages == end - start
      && zone.pageFreeCount == |PageModel.FreePages(m.used, start, end)|
      && zone.pageUsingCount == zone.numberPages - zone.pageFreeCount
      && zone.totalPagesRefCount == PageModel.RefsIn(m.pages, start, end)
  {
    var zone := m.zones[z];
    var start, end := zone.startAddress / 0x20_0000, zone.endAddress / 0x20_0000;
    PageModel.FreeInCounts(m.used, start, end);
    assert zone.Start() == start && zone.End() == end;
    if start == end {
      assert PageModel.FreePages(m.used, start, end) == {};
      assert PageModel.FreeIn(m.used, 0, 0) == 0 && PageModel.RefsIn(m.pages, 0, 0) == 0;
      assert PageModel.RefsIn(m.pages, start, end) == 0;
    }
    forall p | start <= p < end
      ensures PageTellsTruth(m, z, p) <==>
        && m.pages[p].zone == Some(z) && m.pages[p].physicalAddress == p * 0x20_0000
        && (m.used[p] <==> m.pages[p].attribute != {}) && (m.used[p] <==> m.pages[p].referenceCount > 0)
    {
    }
  }

  /** A state passes when every zone does, and no hole and no reserved page is free. */
  lemma {:induction false} TruthTold(m: Memory)
    requires ZonesInside(m)
    ensures TellsTruth(m) <==>
      && (forall z :: 0 <= z < |m.zones| ==> ZoneTellsTruth(m, z))
      && forall p :: 0 <= p < |m.pages| ==>
        m.used[p] || (m.pages[p].zone.Some? && PageModel.KernelInit !in m.pages[p].attribute)
  {
    if TellsTruth(m) {
      forall p | 0 <= p < |m.pages|
        ensures m.used[p] || (m.pages[p].zone.Some? && PageModel.KernelInit !in m.pages[p].attribute)
      {
        assert KeptBack(m, p);
      }
    }
  }
}
