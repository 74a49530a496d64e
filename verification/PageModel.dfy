/**
 The page bookkeeping as a value: bitmap, page descriptors and zones, the two single-page
 updates, and the agreement between the three forms. Here the bitmap is one truth value per
 bit, padding included; `Bitmap` ties it to the packed words.
 */
module PageModel {
  import opened Prelude

  const PAGE_2M: nat := 0x20_0000
  const DIRECT_RAM_END: nat := 0xA0_0000

  /** The named bits of `memory::flags`; an attribute word is the set of its one bits. */
  datatype Flag =
    | PageTableMapped | KernelInit | Referenced | Dirty | Active
    | UpToDate | Device | Kernel | KernelShareToUser | Slab

  /** `zone` is the index of the zone the source's pointer designates; None is the null pointer. */
  datatype Page = Page(zone: Option<nat>, physicalAddress: nat, attribute: set<Flag>, referenceCount: nat)

  /** The counters are `usize` in the source; agreement (below) implies they never go negative. */
  datatype Zone = Zone(
    firstPage: nat, numberPages: nat, startAddress: nat, endAddress: nat,
    pageUsingCount: int, pageFreeCount: int, totalPagesRefCount: int)
  {
    function Start(): nat { startAddress / PAGE_2M }
    function End(): nat { endAddress / PAGE_2M }
    predicate Has(p: nat) { Start() <= p < End() }
  }

  /** `bits_size` is the number of pages; `used` also has the padding bits of the last word. */
  datatype Memory = Memory(used: seq<bool>, pages: seq<Page>, zones: seq<Zone>)

  predicate ZoneShape(zone: Zone, bitsSize: nat) {
    && zone.startAddress % PAGE_2M == 0
    && zone.endAddress % PAGE_2M == 0
    && zone.Start() < zone.End() <= bitsSize
    && zone.firstPage == zone.Start()
    && zone.numberPages == zone.End() - zone.Start()
  }

  ghost predicate PageShape(m: Memory, p: nat)
    requires p < |m.pages|
  {
    var page := m.pages[p];
    && page.physicalAddress == p * PAGE_2M
    && (page.zone.Some? ==> page.zone.value < |m.zones| && m.zones[page.zone.value].Has(p))
    && (forall z :: 0 <= z < |m.zones| && m.zones[z].Has(p) ==> page.zone == Some(z))
  }

  /** What never changes after initialisation: array sizes, zone bounds, page ownership and addresses. */
  ghost predicate Shape(m: Memory) {
    && |m.used| == 64 * ((|m.pages| + 63) / 64)
    && (forall z :: 0 <= z < |m.zones| ==> ZoneShape(m.zones[z], |m.pages|))
    && (forall p :: 0 <= p < |m.pages| ==> PageShape(m, p))
  }

  function FreeIn(used: seq<bool>, lo: nat, hi: nat): (n: nat)
    requires hi <= |used|
    ensures lo <= hi ==> n <= hi - lo
    decreases hi
  {
    if lo >= hi then 0 else FreeIn(used, lo, hi - 1) + (if used[hi - 1] then 0 else 1)
  }

  function RefsIn(pages: seq<Page>, lo: nat, hi: nat): nat
    requires hi <= |pages|
    decreases hi
  {
    if lo >= hi then 0 else RefsIn(pages, lo, hi - 1) + pages[hi - 1].referenceCount
  }

  /** Bitmap and descriptor of one page agree; a page outside every zone, or reserved, is never free. */
  predicate PageAgrees(m: Memory, p: nat)
    requires p < |m.pages| && |m.pages| <= |m.used|
  {
    var page := m.pages[p];
    && (page.zone.Some? ==>
      (m.used[p] <==> page.attribute != {}) && (page.attribute != {} <==> page.referenceCount > 0))
    && (page.zone.None? || KernelInit in page.attribute ==> m.used[p])
  }

  /** The counters of one zone agree with its bitmap range and its descriptors. */
  predicate ZoneAgrees(m: Memory, z: nat)
    requires z < |m.zones| && m.zones[z].End() <= |m.pages| <= |m.used|
    requires m.zones[z].Start() <= m.zones[z].End()
  {
    var zone := m.zones[z];
    var free := FreeIn(m.used, zone.Start(), zone.End());
    && zone.pageFreeCount == free
    && zone.pageUsingCount == zone.End() - zone.Start() - free
    && zone.totalPagesRefCount == RefsIn(m.pages, zone.Start(), zone.End())
  }

  /** The statement checked by `check_allocation_state`: all three forms tell the same story. */
  ghost predicate Consistent(m: Memory) {
    && Shape(m)
    && (forall p :: 0 <= p < |m.pages| ==> PageAgrees(m, p))
    && (forall z :: 0 <= z < |m.zones| ==> ZoneAgrees(m, z))
  }

  predicate SameBounds(a: Zone, b: Zone) {
    && a.firstPage == b.firstPage && a.numberPages == b.numberPages
    && a.startAddress == b.startAddress && a.endAddress == b.endAddress
  }

  ghost predicate SameLayout(m: Memory, m': Memory) {
    && |m'.used| == |m.used| && |m'.pages| == |m.pages| && |m'.zones| == |m.zones|
    && (forall z :: 0 <= z < |m.zones| ==> SameBounds(m.zones[z], m'.zones[z]))
    && (forall p :: 0 <= p < |m.pages| ==>
          m'.pages[p].zone == m.pages[p].zone && m'.pages[p].physicalAddress == m.pages[p].physicalAddress)
  }

  // ---------- counting

  lemma {:induction false} FreeInSame(a: seq<bool>, b: seq<bool>, lo: nat, hi: nat)
    requires hi <= |a| && |b| == |a|
    requires forall p :: lo <= p < hi ==> b[p] == a[p]
    ensures FreeIn(b, lo, hi) == FreeIn(a, lo, hi)
    decreases hi
  {
    if lo < hi { FreeInSame(a, b, lo, hi - 1); }
  }

  /** Changing one bit of a range moves its free count by that bit and nothing else. */
  lemma {:induction false} FreeInOne(a: seq<bool>, i: nat, value: bool, lo: nat, hi: nat)
    requires hi <= |a| && lo <= i < hi
    ensures FreeIn(a[i := value], lo, hi) == FreeIn(a, lo, hi) + (if a[i] then 1 else 0) - (if value then 1 else 0)
    decreases hi
  {
    if i == hi - 1 {
      FreeInSame(a, a[i := value], lo, hi - 1);
    } else {
      FreeInOne(a, i, value, lo, hi - 1);
    }
  }

  lemma {:induction false} RefsInSame(a: seq<Page>, b: seq<Page>, lo: nat, hi: nat)
    requires hi <= |a| && |b| == |a|
    requires forall p :: lo <= p < hi ==> b[p].referenceCount == a[p].referenceCount
    ensures RefsIn(b, lo, hi) == RefsIn(a, lo, hi)
    decreases hi
  {
    if lo < hi { RefsInSame(a, b, lo, hi - 1); }
  }

  lemma {:induction false} RefsInOne(a: seq<Page>, i: nat, page: Page, lo: nat, hi: nat)
    requires hi <= |a| && lo <= i < hi
    ensures RefsIn(a[i := page], lo, hi) == RefsIn(a, lo, hi) - a[i].referenceCount + page.referenceCount
    decreases hi
  {
    if i == hi - 1 {
      RefsInSame(a, a[i := page], lo, hi - 1);
    } else {
      RefsInOne(a, i, page, lo, hi - 1);
    }
  }

  /** A free run inside a range is counted in full. */
  lemma {:induction false} FreeInRun(used: seq<bool>, lo: nat, hi: nat, first: nat, count: nat)
    requires hi <= |used| && lo <= first && first + count <= hi
    requires forall p :: first <= p < first + count ==> !used[p]
    ensures FreeIn(used, lo, hi) >= count
    decreases hi
  {
    if first + count < hi {
      FreeInRun(used, lo, hi - 1, first, count);
    } else if count > 0 {
      FreeInRun(used, lo, hi - 1, first, count - 1);
    }
  }

  // ---------- init_page

  predicate Shares(page: Page, attributes: set<Flag>) {
    (page.attribute + attributes) * {Referenced, KernelShareToUser} != {}
  }

  function PageAfterInit(page: Page, attributes: set<Flag>): Page {
    if page.attribute == {} then page.(attribute := attributes, referenceCount := 1)
    else if Shares(page, attributes) then
      page.(attribute := page.attribute + attributes, referenceCount := page.referenceCount + 1)
    else page.(attribute := page.attribute + attributes)
  }

  function ZoneAfterInit(zone: Zone, page: Page, attributes: set<Flag>): Zone {
    if page.attribute == {} then
      zone.(pageUsingCount := zone.pageUsingCount + 1, pageFreeCount := zone.pageFreeCount - 1,
            totalPagesRefCount := zone.totalPagesRefCount + 1)
    else if Shares(page, attributes) then zone.(totalPagesRefCount := zone.totalPagesRefCount + 1)
    else zone
  }

  ghost function InitPage(m: Memory, i: nat, attributes: set<Flag>): Memory
    requires Shape(m) && i < |m.pages|
  {
    assert PageShape(m, i);
    var page := m.pages[i];
    Memory(
      m.used[i := true],
      m.pages[i := PageAfterInit(page, attributes)],
      if page.zone.None? then m.zones
      else m.zones[page.zone.value := ZoneAfterInit(m.zones[page.zone.value], page, attributes)])
  }

  // ---------- clean_page

  /** The assertions of `clean_page`. */
  predicate Cleanable(page: Page) {
    && page.zone.Some? && KernelInit !in page.attribute
    && (page.attribute != {} ==> page.referenceCount > 0)
  }

  function PageAfterClean(page: Page): Page
    requires Cleanable(page)
  {
    if page.attribute == {} then page
    else page.(referenceCount := page.referenceCount - 1,
               attribute := if page.referenceCount == 1 then {} else page.attribute)
  }

  function ZoneAfterClean(zone: Zone, page: Page): Zone {
    if page.attribute == {} then zone
    else if page.referenceCount == 1 then
      zone.(totalPagesRefCount := zone.totalPagesRefCount - 1,
            pageUsingCount := zone.pageUsingCount - 1, pageFreeCount := zone.pageFreeCount + 1)
    else zone.(totalPagesRefCount := zone.totalPagesRefCount - 1)
  }

  ghost function CleanPage(m: Memory, i: nat): Memory
    requires Shape(m) && i < |m.pages| && Cleanable(m.pages[i])
  {
    assert PageShape(m, i);
    var page := m.pages[i];
    Memory(
      if page.attribute != {} && page.referenceCount == 1 then m.used[i := false] else m.used,
      m.pages[i := PageAfterClean(page)],
      m.zones[page.zone.value := ZoneAfterClean(m.zones[page.zone.value], page)])
  }

  // ---------- the single-page updates keep the three forms in agreement

  lemma {:induction false} LayoutKept(m: Memory, m': Memory)
    requires Shape(m) && SameLayout(m, m')
    ensures Shape(m')
  {
    forall z | 0 <= z < |m'.zones|
      ensures ZoneShape(m'.zones[z], |m'.pages|)
    {
      assert SameBounds(m.zones[z], m'.zones[z]) && ZoneShape(m.zones[z], |m.pages|);
    }
    forall p | 0 <= p < |m'.pages|
      ensures PageShape(m', p)
    {
      assert PageShape(m, p);
      assert forall z :: 0 <= z < |m.zones| ==> SameBounds(m.zones[z], m'.zones[z]);
      assert forall z :: 0 <= z < |m.zones| ==> m.zones[z].Has(p) == m'.zones[z].Has(p);
    }
  }

  /**
   One page i changes, with the counters of its own zone following it: agreement carries over.
   Both single-page updates are instances.
   */
  lemma {:induction false} OnePageChange(m: Memory, m': Memory, i: nat)
    requires Consistent(m) && i < |m.pages| <= |m.used| && SameLayout(m, m')
    requires m'.used == m.used[i := m'.used[i]]
    requires m'.pages == m.pages[i := m'.pages[i]]
    requires PageAgrees(m', i)
    requires m.pages[i].zone.None? ==> m'.zones == m.zones
    requires m.pages[i].zone.Some? ==>
      var z := m.pages[i].zone.value;
      var freed := (if m.used[i] then 1 else 0) - (if m'.used[i] then 1 else 0);
      var refs := m'.pages[i].referenceCount - m.pages[i].referenceCount;
      && z < |m.zones| && m'.zones == m.zones[z := m'.zones[z]]
      && m'.zones[z].pageFreeCount == m.zones[z].pageFreeCount + freed
      && m'.zones[z].pageUsingCount == m.zones[z].pageUsingCount - freed
      && m'.zones[z].totalPagesRefCount == m.zones[z].totalPagesRefCount + refs
    ensures Consistent(m')
  {
    LayoutKept(m, m');
    forall p | 0 <= p < |m'.pages|
      ensures PageAgrees(m', p)
    {
      if p != i { assert PageAgrees(m, p); assert m'.pages[p] == m.pages[p]; }
    }
    forall z | 0 <= z < |m'.zones|
      ensures ZoneAgrees(m', z)
    {
      var zone := m.zones[z];
      assert ZoneAgrees(m, z) && SameBounds(zone, m'.zones[z]) && ZoneShape(zone, |m.pages|);
      assert PageShape(m, i);
      if zone.Has(i) {
        FreeInOne(m.used, i, m'.used[i], zone.Start(), zone.End());
        RefsInOne(m.pages, i, m'.pages[i], zone.Start(), zone.End());
      } else {
        FreeInSame(m.used, m'.used, zone.Start(), zone.End());
        RefsInSame(m.pages, m'.pages, zone.Start(), zone.End());
      }
    }
  }

  /** Taking a free page never finds its zone's counter at zero. */
  lemma {:induction false} FreePageIsCounted(m: Memory, i: nat)
    requires Consistent(m) && i < |m.pages| && m.pages[i].attribute == {} && m.pages[i].zone.Some?
    ensures m.pages[i].zone.value < |m.zones| && m.zones[m.pages[i].zone.value].pageFreeCount > 0
  {
    assert PageAgrees(m, i) && PageShape(m, i);
    var z := m.pages[i].zone.value;
    assert ZoneAgrees(m, z) && ZoneShape(m.zones[z], |m.pages|);
    FreeInRun(m.used, m.zones[z].Start(), m.zones[z].End(), i, 1);
  }

  /** An attribute word of zero turns a free page of a zone into one that is used and has no attribute. */
  predicate Marks(page: Page, attributes: set<Flag>) {
    attributes != {} || page.attribute != {} || page.zone.None?
  }

  /** `init_page` keeps agreement on every page, exactly when it leaves a zone's page with an attribute. */
  lemma {:induction false} InitPageAgrees(m: Memory, i: nat, attributes: set<Flag>)
    requires Consistent(m) && i < |m.pages|
    ensures SameLayout(m, InitPage(m, i, attributes))
    ensures Consistent(InitPage(m, i, attributes)) <==> Marks(m.pages[i], attributes)
  {
    var m' := InitPage(m, i, attributes);
    assert PageAgrees(m, i) && PageShape(m, i);
    if Marks(m.pages[i], attributes) {
      OnePageChange(m, m', i);
    } else {
      assert !PageAgrees(m', i);
    }
  }

  /** One free page in one zone. */
  predicate OnePage(m: Memory) {
    && |m.used| == 64 && !m.used[0]
    && |m.pages| == 1 && m.pages[0] == Page(Some(0), 0, {}, 0)
    && |m.zones| == 1 && m.zones[0] == Zone(0, 1, 0, PAGE_2M, 0, 1, 0)
  }

  lemma {:induction false} OnePageShaped(m: Memory)
    requires OnePage(m)
    ensures Shape(m) && PageAgrees(m, 0)
  {
    var page, zone := m.pages[0], m.zones[0];
    assert zone.Start() == 0 && zone.End() == 1;
    assert zone.startAddress % PAGE_2M == 0 && zone.endAddress % PAGE_2M == 0;
    assert page.attribute == {} && page.zone == Some(0);
    assert page.physicalAddress == 0 && zone.Has(0);
    forall p | 0 <= p < |m.pages|
      ensures PageShape(m, p)
    {
      assert p == 0;
    }
  }

  lemma {:induction false} CountersOfOne(used: seq<bool>, pages: seq<Page>, lo: nat, hi: nat)
    requires hi == lo + 1 <= |used| && hi <= |pages|
    ensures FreeIn(used, lo, hi) == if used[lo] then 0 else 1
    ensures RefsIn(pages, lo, hi) == pages[lo].referenceCount
  {
    assert FreeIn(used, lo, lo) == 0 && RefsIn(pages, lo, lo) == 0;
  }

  lemma {:induction false} SingleZoneAgrees(m: Memory)
    requires Shape(m) && |m.pages| == |m.zones| == 1 && PageAgrees(m, 0) && !m.used[0]
    requires m.zones[0].pageFreeCount == 1 && m.zones[0].pageUsingCount == 0
    requires m.zones[0].totalPagesRefCount == m.pages[0].referenceCount
    ensures Consistent(m)
  {
    assert ZoneShape(m.zones[0], 1);
    CountersOfOne(m.used, m.pages, m.zones[0].Start(), m.zones[0].End());
  }

  lemma {:induction false} OnePageAgrees(m: Memory)
    requires OnePage(m)
    ensures Consistent(m)
  {
    OnePageShaped(m);
    SingleZoneAgrees(m);
  }

  lemma {:induction false} SingleFreePage() returns (m: Memory)
    ensures Consistent(m) && |m.pages| == 1 && !m.used[0] && m.pages[0].zone.Some?
  {
    m := Memory(seq(64, i => i > 0), [Page(Some(0), 0, {}, 0)], [Zone(0, 1, 0, PAGE_2M, 0, 1, 0)]);
    OnePageAgrees(m);
  }

  /** Without attributes, `init_page` leaves page i used and unmarked, and the forms no longer agree. */
  ghost predicate LeftUnmarked(m: Memory, i: nat)
    requires Shape(m) && i < |m.pages|
  {
    var m' := InitPage(m, i, {});
    i < |m'.used| && i < |m'.pages| && m'.used[i] && m'.pages[i].attribute == {} && !Consistent(m')
  }

  lemma {:induction false} LeavesUnmarked(m: Memory, i: nat)
    requires Consistent(m) && i < |m.pages| && !Marks(m.pages[i], {})
    ensures LeftUnmarked(m, i)
  {
    InitPageAgrees(m, i, {});
  }

  /** An input on which it fails: a single free page, taken without attribute, is left used with none. */
  lemma {:induction false} ZeroAttributesDisagree() returns (m: Memory)
    ensures Consistent(m) && |m.pages| == 1 && !m.used[0]
    ensures LeftUnmarked(m, 0)
  {
    m := SingleFreePage();
    assert PageAgrees(m, 0);
    LeavesUnmarked(m, 0);
  }

  /** `clean_page` keeps agreement on every page its assertions let through. */
  lemma {:induction false} CleanPageAgrees(m: Memory, i: nat)
    requires Consistent(m) && i < |m.pages| && Cleanable(m.pages[i])
    ensures Consistent(CleanPage(m, i)) && SameLayout(m, CleanPage(m, i))
  {
    assert PageAgrees(m, i) && PageShape(m, i);
    OnePageChange(m, CleanPage(m, i), i);
  }

  lemma {:induction false} SharesByFlag(page: Page, attributes: set<Flag>)
    ensures Shares(page, attributes) <==>
      Referenced in page.attribute + attributes || KernelShareToUser in page.attribute + attributes
  {
    var both := (page.attribute + attributes) * {Referenced, KernelShareToUser};
    assert Referenced in page.attribute + attributes ==> Referenced in both;
    assert KernelShareToUser in page.attribute + attributes ==> KernelShareToUser in both;
    if both != {} {
      var f :| f in both;
    }
  }

  /**
   A page counts as shared when one of the two sharing flags is on it: giving back one reference then
   leaves it used.
   */
  lemma {:induction false} SharedStaysUsed(m: Memory, i: nat, attributes: set<Flag>)
    requires Consistent(m) && i < |m.pages| && m.pages[i].zone.Some? && m.pages[i].attribute != {}
    requires KernelInit !in m.pages[i].attribute && KernelInit !in attributes
    ensures Consistent(InitPage(m, i, attributes)) && Cleanable(InitPage(m, i, attributes).pages[i])
    ensures var before, after := m.pages[i], CleanPage(InitPage(m, i, attributes), i);
      var shared := Referenced in before.attribute + attributes || KernelShareToUser in before.attribute + attributes;
      && after.pages[i].referenceCount == before.referenceCount - (if shared then 0 else 1)
      && (after.used[i] <==> shared || before.referenceCount > 1)
  {
    SharesByFlag(m.pages[i], attributes);
    assert PageAgrees(m, i) && PageShape(m, i);
    InitPageAgrees(m, i, attributes);
    assert PageAgrees(InitPage(m, i, attributes), i);
  }

  ghost function FreePages(used: seq<bool>, lo: nat, hi: nat): set<nat>
    requires hi <= |used|
  {
    set p: nat | lo <= p < hi && !used[p]
  }

  /** The free count is the number of bits that are zero. */
  lemma {:induction false} FreeInCounts(used: seq<bool>, lo: nat, hi: nat)
    requires lo <= hi <= |used|
    ensures FreeIn(used, lo, hi) == |FreePages(used, lo, hi)|
    decreases hi
  {
    if lo < hi {
      FreeInCounts(used, lo, hi - 1);
      var before, now := FreePages(used, lo, hi - 1), FreePages(used, lo, hi);
      assert now == if used[hi - 1] then before else before + {hi - 1};
    } else {
      assert FreePages(used, lo, hi) == {};
    }
  }

  // ---------- the redundancy is complete

  /**
   Giving back one reference undoes taking one, whether that reference was the first of a free page
   or one more on a shared page, which stays used; only the union of the attributes remains.
   */
  lemma {:induction false} CleanUndoesInit(m: Memory, i: nat, attributes: set<Flag>)
    requires Consistent(m) && i < |m.pages| && Cleanable(m.pages[i])
    requires attributes != {} && KernelInit !in attributes
    requires m.pages[i].attribute == {} || Shares(m.pages[i], attributes)
    ensures Shape(InitPage(m, i, attributes)) && Cleanable(InitPage(m, i, attributes).pages[i])
    ensures var page := m.pages[i];
      var left := page.(attribute := if page.attribute == {} then {} else page.attribute + attributes);
      CleanPage(InitPage(m, i, attributes), i) == m.(pages := m.pages[i := left])
  {
    InitPageAgrees(m, i, attributes);
    assert PageAgrees(m, i) && PageShape(m, i);
    var r := CleanPage(InitPage(m, i, attributes), i);
    assert r.zones == m.zones && r.used == m.used;
  }

  /** Descriptors, zone bounds and bits determine the whole bookkeeping, counters included. */
  lemma {:induction false} Determined(a: Memory, b: Memory)
    requires Consistent(a) && Consistent(b) && SameLayout(a, b)
    requires a.pages == b.pages && a.used == b.used
    ensures a == b
  {
    forall z | 0 <= z < |a.zones|
      ensures a.zones[z] == b.zones[z]
    {
      assert SameBounds(a.zones[z], b.zones[z]);
      assert ZoneAgrees(a, z) && ZoneAgrees(b, z);
    }
  }
}
