/**
 Whole runs of pages: first-fit search, commit, validated release. The search is specified
 without an algorithm, by "no earlier place fits".
 */
module PageRuns {
  import opened Prelude
  import opened PageModel

  datatype AllocationArea = Mapped | Any
  datatype AllocationError = InvalidCount | OutOfMemory

  datatype PageRun = PageRun(first: nat, count: nat)
  {
    function End(): nat { first + count }
    predicate Has(p: nat) { first <= p < End() }
  }

  predicate Apart(a: PageRun, b: PageRun) {
    a.End() <= b.first || b.End() <= a.first
  }

  /** One past the last page of the zone that a request for this area may use. */
  function Limit(zone: Zone, area: AllocationArea): nat {
    var endAddress := match area
      case Mapped => if zone.endAddress <= DIRECT_RAM_END then zone.endAddress else DIRECT_RAM_END
      case Any => zone.endAddress;
    endAddress / PAGE_2M
  }

  function RunAttributes(p: nat): set<Flag> {
    {Active, Kernel} + (if p < DIRECT_RAM_END / PAGE_2M then {PageTableMapped} else {})
  }

  // ---------- taking a run

  function Taken(page: Page, p: nat): Page {
    page.(attribute := RunAttributes(p), referenceCount := 1)
  }

  function Idle(page: Page): Page {
    page.(attribute := {}, referenceCount := 0)
  }

  /** `init_page` on each page of [first, first + n) in turn. */
  ghost function Commit(m: Memory, first: nat, n: nat): (r: Memory)
    requires Consistent(m) && first + n <= |m.pages|
    ensures Consistent(r) && SameLayout(m, r)
  {
    if n == 0 then m else
      var before := Commit(m, first, n - 1);
      InitPageAgrees(before, first + n - 1, RunAttributes(first + n - 1));
      InitPage(before, first + n - 1, RunAttributes(first + n - 1))
  }

  lemma {:induction false} CommitNext(m: Memory, first: nat, n: nat)
    requires Consistent(m) && first + n < |m.pages|
    ensures Commit(m, first, n + 1) == InitPage(Commit(m, first, n), first + n, RunAttributes(first + n))
  {
  }

  predicate FreePage(m: Memory, p: nat)
    requires p < |m.pages| && |m.pages| <= |m.used|
  {
    m.pages[p].zone.Some? && !m.used[p]
  }

  /** The descriptors of [first, first + n) taken, all others as they were. */
  function TakenPages(pages: seq<Page>, first: nat, n: nat): seq<Page> {
    seq(|pages|, p requires 0 <= p < |pages| => if first <= p < first + n then Taken(pages[p], p) else pages[p])
  }

  /** The bits of [first, first + n) set to a value, all others as they were. */
  function BitsSet(used: seq<bool>, first: nat, n: nat, value: bool): seq<bool> {
    seq(|used|, p requires 0 <= p < |used| => if first <= p < first + n then value else used[p])
  }

  function TotalFree(zones: seq<Zone>): int {
    if zones == [] then 0 else zones[0].pageFreeCount + TotalFree(zones[1..])
  }

  lemma {:induction false} TotalFreeUpdate(zones: seq<Zone>, z: nat, zone: Zone)
    requires z < |zones|
    ensures TotalFree(zones[z := zone]) == TotalFree(zones) - zones[z].pageFreeCount + zone.pageFreeCount
  {
    if z == 0 {
      assert zones[z := zone][1..] == zones[1..];
    } else {
      assert zones[z := zone][1..] == zones[1..][z - 1 := zone];
      TotalFreeUpdate(zones[1..], z - 1, zone);
    }
  }

  /** Taking one free page. */
  lemma {:induction false} CommittedOne(m: Memory, i: nat)
    requires Consistent(m) && i < |m.pages| <= |m.used| && m.pages[i].attribute == {} && m.pages[i].zone.Some?
    ensures var r := InitPage(m, i, RunAttributes(i));
      && r.pages == m.pages[i := Taken(m.pages[i], i)] && r.used == m.used[i := true]
      && TotalFree(r.zones) == TotalFree(m.zones) - 1
  {
    assert PageShape(m, i);
    var z := m.pages[i].zone.value;
    TotalFreeUpdate(m.zones, z, InitPage(m, i, RunAttributes(i)).zones[z]);
  }

  lemma {:induction false} CommitStep(m: Memory, before: Memory, first: nat, n: nat)
    requires Consistent(m) && Consistent(before) && n > 0 && first + n <= |m.pages| && FreePage(m, first + n - 1)
    requires before.pages == TakenPages(m.pages, first, n - 1) && before.used == BitsSet(m.used, first, n - 1, true)
    ensures var r := InitPage(before, first + n - 1, RunAttributes(first + n - 1));
      && r.pages == TakenPages(m.pages, first, n) && r.used == BitsSet(m.used, first, n, true)
      && TotalFree(r.zones) == TotalFree(before.zones) - 1
  {
    assert PageAgrees(m, first + n - 1);
    CommittedOne(before, first + n - 1);
  }

  lemma {:induction false} CommitContents(m: Memory, first: nat, n: nat)
    requires Consistent(m) && first + n <= |m.pages|
    requires forall p :: first <= p < first + n ==> FreePage(m, p)
    ensures Commit(m, first, n).pages == TakenPages(m.pages, first, n)
    ensures Commit(m, first, n).used == BitsSet(m.used, first, n, true)
    ensures TotalFree(Commit(m, first, n).zones) == TotalFree(m.zones) - n
  {
    if n == 0 {
      assert TakenPages(m.pages, first, 0) == m.pages && BitsSet(m.used, first, 0, true) == m.used;
    } else {
      assert FreePage(m, first + n - 1);
      CommitContents(m, first, n - 1);
      CommitStep(m, Commit(m, first, n - 1), first, n);
    }
  }

  /** Committing a free run changes those descriptors and bits, and no others. */
  lemma {:induction false} CommitEffect(m: Memory, first: nat, n: nat)
    requires Consistent(m) && first + n <= |m.pages|
    requires forall p :: first <= p < first + n ==> FreePage(m, p)
    ensures var r := Commit(m, first, n);
      && (forall p :: 0 <= p < |m.pages| ==>
        r.pages[p] == (if first <= p < first + n then Taken(m.pages[p], p) else m.pages[p]))
      && (forall p :: 0 <= p < |m.used| ==> r.used[p] == (m.used[p] || first <= p < first + n))
    ensures TotalFree(Commit(m, first, n).zones) == TotalFree(m.zones) - n
  {
    CommitContents(m, first, n);
  }

  // ---------- giving a run back

  /** Page p can be handed back: owned by a zone, used, referenced once and not reserved by the kernel. */
  predicate Returnable(m: Memory, p: nat)
    requires p < |m.pages| && |m.pages| <= |m.used|
  {
    && m.pages[p].zone.Some? && m.used[p] && m.pages[p].attribute != {}
    && KernelInit !in m.pages[p].attribute && m.pages[p].referenceCount == 1
  }

  /** `clean_page` on each page of [first, first + n) in turn. */
  ghost function Clear(m: Memory, first: nat, n: nat): (r: Memory)
    requires Consistent(m) && first + n <= |m.pages|
    requires forall p :: first <= p < first + n ==> Returnable(m, p)
    ensures Consistent(r) && SameLayout(m, r)
    ensures forall p :: first + n <= p < |m.pages| ==> r.pages[p] == m.pages[p]
  {
    if n == 0 then m else
      var before := Clear(m, first, n - 1);
      assert Returnable(m, first + n - 1);
      CleanPageAgrees(before, first + n - 1);
      CleanPage(before, first + n - 1)
  }

  lemma {:induction false} ClearNext(m: Memory, first: nat, n: nat)
    requires Consistent(m) && first + n < |m.pages|
    requires forall p :: first <= p <= first + n ==> Returnable(m, p)
    ensures Clear(m, first, n).pages[first + n] == m.pages[first + n] && Cleanable(m.pages[first + n])
    ensures Clear(m, first, n + 1) == CleanPage(Clear(m, first, n), first + n)
  {
    assert Returnable(m, first + n);
  }

  /** Exactly the checks `release` makes before it changes anything. */
  predicate Releasable(m: Memory, run: PageRun)
    requires |m.pages| <= |m.used|
  {
    && run.End() < TWO64
    && run.count > 0 && run.End() <= |m.pages|
    && m.pages[run.first].zone.Some?
    && forall p :: run.first <= p < run.End() ==> m.pages[p].zone == m.pages[run.first].zone && Returnable(m, p)
  }

  /** The descriptors of [first, first + n) free, all others as they were. */
  function IdlePages(pages: seq<Page>, first: nat, n: nat): seq<Page> {
    seq(|pages|, p requires 0 <= p < |pages| => if first <= p < first + n then Idle(pages[p]) else pages[p])
  }

  /** Giving back one once-referenced page. */
  lemma {:induction false} ClearedOne(m: Memory, i: nat)
    requires Consistent(m) && i < |m.pages| <= |m.used| && Cleanable(m.pages[i])
    requires m.pages[i].attribute != {} && m.pages[i].referenceCount == 1
    ensures var r := CleanPage(m, i);
      && r.pages == m.pages[i := Idle(m.pages[i])] && r.used == m.used[i := false]
      && TotalFree(r.zones) == TotalFree(m.zones) + 1
  {
    assert PageShape(m, i);
    var z := m.pages[i].zone.value;
    TotalFreeUpdate(m.zones, z, CleanPage(m, i).zones[z]);
  }

  lemma {:induction false} ClearStep(m: Memory, before: Memory, first: nat, n: nat)
    requires Consistent(before) && n > 0 && first + n <= |m.pages| <= |m.used| && Returnable(m, first + n - 1)
    requires before.pages == IdlePages(m.pages, first, n - 1) && before.used == BitsSet(m.used, first, n - 1, false)
    requires Cleanable(before.pages[first + n - 1])
    ensures var r := CleanPage(before, first + n - 1);
      && r.pages == IdlePages(m.pages, first, n) && r.used == BitsSet(m.used, first, n, false)
      && TotalFree(r.zones) == TotalFree(before.zones) + 1
  {
    ClearedOne(before, first + n - 1);
  }

  lemma {:induction false} ClearContents(m: Memory, first: nat, n: nat)
    requires Consistent(m) && first + n <= |m.pages|
    requires forall p :: first <= p < first + n ==> Returnable(m, p)
    ensures Clear(m, first, n).pages == IdlePages(m.pages, first, n)
    ensures Clear(m, first, n).used == BitsSet(m.used, first, n, false)
    ensures TotalFree(Clear(m, first, n).zones) == TotalFree(m.zones) + n
  {
    if n == 0 {
      assert IdlePages(m.pages, first, 0) == m.pages && BitsSet(m.used, first, 0, false) == m.used;
    } else {
      assert Returnable(m, first + n - 1);
      ClearContents(m, first, n - 1);
      ClearStep(m, Clear(m, first, n - 1), first, n);
    }
  }

  /** Clearing a run of once-referenced pages changes those descriptors and bits, and no others. */
  lemma {:induction false} ClearEffect(m: Memory, first: nat, n: nat)
    requires Consistent(m) && first + n <= |m.pages|
    requires forall p :: first <= p < first + n ==> Returnable(m, p)
    ensures var r := Clear(m, first, n);
      && (forall p :: 0 <= p < |m.pages| ==>
        r.pages[p] == (if first <= p < first + n then Idle(m.pages[p]) else m.pages[p]))
      && (forall p :: 0 <= p < |m.used| ==> r.used[p] == (m.used[p] && !(first <= p < first + n)))
    ensures TotalFree(Clear(m, first, n).zones) == TotalFree(m.zones) + n
  {
    ClearContents(m, first, n);
  }

  /** `release`: None is the failed assertion. */
  ghost function Release(m: Memory, run: PageRun): Option<Memory>
    requires Consistent(m)
  {
    if Releasable(m, run) then Some(Clear(m, run.first, run.count)) else None
  }

  // ---------- searching

  ghost predicate FreeRun(m: Memory, first: nat, count: nat) {
    && first + count <= |m.used|
    && forall p :: first <= p < first + count ==> !m.used[p]
  }

  /** `count` consecutive free pages from `first`, all inside the usable part of zone z. */
  ghost predicate Fits(m: Memory, area: AllocationArea, count: nat, z: nat, first: nat)
    requires Shape(m)
  {
    && z < |m.zones|
    && m.zones[z].Start() <= first && first + count <= Limit(m.zones[z], area)
    && FreeRun(m, first, count)
  }

  /** The place fits, and no earlier zone, nor an earlier page of the same zone, does. */
  ghost predicate FirstFit(m: Memory, area: AllocationArea, count: nat, z: nat, first: nat)
    requires Shape(m)
  {
    && Fits(m, area, count, z, first)
    && forall y: nat, f: nat :: Fits(m, area, count, y, f) ==> z < y || (z == y && first <= f)
  }

  lemma {:induction false} FirstFitExists(m: Memory, area: AllocationArea, count: nat, z: nat, first: nat)
    returns (y: nat, f: nat)
    requires Shape(m) && Fits(m, area, count, z, first)
    ensures FirstFit(m, area, count, y, f)
    decreases z, first
  {
    if u: nat, g: nat :| Fits(m, area, count, u, g) && (u < z || (u == z && g < first)) {
      y, f := FirstFitExists(m, area, count, u, g);
    } else {
      y, f := z, first;
    }
  }

  /** A place that fits lies in the zone's own pages, all of them free and owned by that zone. */
  lemma {:induction false} FitIsFree(m: Memory, area: AllocationArea, count: nat, z: nat, first: nat)
    requires Consistent(m) && Fits(m, area, count, z, first) && count > 0
    ensures first + count <= m.zones[z].End() <= |m.pages|
    ensures forall p :: first <= p < first + count ==>
      m.pages[p].zone == Some(z) && FreePage(m, p) && m.pages[p].attribute == {} && m.pages[p].referenceCount == 0
  {
    assert ZoneShape(m.zones[z], |m.pages|);
    forall p | first <= p < first + count
      ensures m.pages[p].zone == Some(z) && FreePage(m, p)
      ensures m.pages[p].attribute == {} && m.pages[p].referenceCount == 0
    {
      assert PageShape(m, p) && PageAgrees(m, p);
      assert m.zones[z].Has(p);
    }
  }

  /** The two size shortcuts never skip a zone in which the request would have fitted. */
  lemma {:induction false} ShortcutsAreSafe(m: Memory, area: AllocationArea, count: nat, z: nat, first: nat)
    requires Consistent(m) && Fits(m, area, count, z, first) && count > 0
    ensures count <= Limit(m.zones[z], area) - m.zones[z].Start()
    ensures count <= m.zones[z].pageFreeCount
  {
    FitIsFree(m, area, count, z, first);
    assert ZoneAgrees(m, z);
    FreeInRun(m.used, m.zones[z].Start(), m.zones[z].End(), first, count);
  }

  ghost function Place(m: Memory, area: AllocationArea, count: nat): (place: (nat, nat))
    requires Shape(m) && exists z: nat, f: nat :: FirstFit(m, area, count, z, f)
    ensures FirstFit(m, area, count, place.0, place.1)
  {
    var z: nat, f: nat :| FirstFit(m, area, count, z, f);
    (z, f)
  }

  lemma {:induction false} FirstFitUnique(
    m: Memory, area: AllocationArea, count: nat, z: nat, first: nat, y: nat, f: nat)
    requires Shape(m) && FirstFit(m, area, count, z, first) && FirstFit(m, area, count, y, f)
    ensures z == y && first == f
  {
    assert Fits(m, area, count, z, first) && Fits(m, area, count, y, f);
  }

  /** The result and the new state of one request. */
  ghost function Allocate(m: Memory, area: AllocationArea, count: nat): (Result<PageRun, AllocationError>, Memory)
    requires Consistent(m)
  {
    if count == 0 then (Err(InvalidCount), m)
    else if exists z: nat, f: nat :: FirstFit(m, area, count, z, f) then
      var z, f: nat :| FirstFit(m, area, count, z, f);
      FitIsFree(m, area, count, z, f);
      (Ok(PageRun(f, count)), Commit(m, f, count))
    else (Err(OutOfMemory), m)
  }

  /** The outcome of a request, in terms of what is free and nothing else. */
  lemma {:induction false} AllocateOutcome(m: Memory, area: AllocationArea, count: nat)
    requires Consistent(m)
    ensures Allocate(m, area, count).0 == Err(InvalidCount) <==> count == 0
    ensures Allocate(m, area, count).0 == Err(OutOfMemory) <==>
      count > 0 && !exists z: nat, first: nat :: Fits(m, area, count, z, first)
    ensures Allocate(m, area, count).0.Err? ==> Allocate(m, area, count).1 == m
    ensures forall run :: Allocate(m, area, count).0 == Ok(run) ==>
      run.count == count > 0 && exists z :: FirstFit(m, area, count, z, run.first)
  {
    if count > 0 {
      if z: nat, first: nat :| Fits(m, area, count, z, first) {
        var y, f := FirstFitExists(m, area, count, z, first);
      }
    }
  }

  /** There is only one first fit, and it is what a request gets. */
  lemma {:induction false} AllocateTakes(m: Memory, area: AllocationArea, count: nat, z: nat, first: nat)
    requires Consistent(m) && count > 0 && FirstFit(m, area, count, z, first)
    ensures first + count <= |m.pages|
    ensures Allocate(m, area, count) == (Ok(PageRun(first, count)), Commit(m, first, count))
  {
    FitIsFree(m, area, count, z, first);
    var (y, f) := Place(m, area, count);
    FirstFitUnique(m, area, count, z, first, y, f);
  }

  /** The place behind a granted request. */
  lemma {:induction false} GrantedPlace(m: Memory, area: AllocationArea, count: nat) returns (z: nat, first: nat)
    requires Consistent(m) && Allocate(m, area, count).0.Ok?
    ensures count > 0 && FirstFit(m, area, count, z, first) && first + count <= |m.pages|
    ensures Allocate(m, area, count) == (Ok(PageRun(first, count)), Commit(m, first, count))
  {
    var place := Place(m, area, count);
    z, first := place.0, place.1;
    AllocateTakes(m, area, count, z, first);
  }

  // ---------- runs against each other

  /** A run held by a caller: inside one zone, every page exactly as the commit left it. */
  ghost predicate Live(m: Memory, run: PageRun)
    requires Shape(m)
  {
    && run.count > 0 && run.End() <= |m.pages|
    && m.pages[run.first].zone.Some?
    && forall p :: run.first <= p < run.End() ==>
         m.pages[p].zone == m.pages[run.first].zone && m.used[p]
         && m.pages[p].attribute == RunAttributes(p) && m.pages[p].referenceCount == 1
  }

  /** All of the checks in `release` succeed on a live run, provided page numbers are machine numbers. */
  lemma {:induction false} LiveIsReleasable(m: Memory, run: PageRun)
    requires Consistent(m) && Live(m, run) && |m.pages| < TWO64
    ensures Releasable(m, run)
  {
  }

  /** `r` is `m` with the free pages of a run taken. */
  ghost predicate Committed(m: Memory, r: Memory, run: PageRun) {
    && SameLayout(m, r) && |m.pages| <= |m.used| && run.End() <= |m.pages|
    && (forall p :: run.first <= p < run.End() ==> FreePage(m, p))
    && (forall p :: 0 <= p < |m.pages| ==> r.pages[p] == (if run.Has(p) then Taken(m.pages[p], p) else m.pages[p]))
    && (forall p :: 0 <= p < |m.used| ==> r.used[p] == (m.used[p] || run.Has(p)))
  }

  /** A granted request takes the first place that fits, takes it whole, and touches nothing else. */
  lemma {:induction false} AllocateCommits(m: Memory, area: AllocationArea, count: nat)
    requires Consistent(m) && Allocate(m, area, count).0.Ok?
    ensures var (result, m') := Allocate(m, area, count);
      && result.value.count == count > 0
      && Consistent(m') && Committed(m, m', result.value)
      && TotalFree(m'.zones) == TotalFree(m.zones) - count
    ensures exists z: nat :: FirstFit(m, area, count, z, Allocate(m, area, count).0.value.first)
  {
    var z, first := GrantedPlace(m, area, count);
    FitIsFree(m, area, count, z, first);
    CommitEffect(m, first, count);
  }

  lemma {:induction false} CommittedIsLive(m: Memory, m': Memory, run: PageRun)
    requires Consistent(m) && Consistent(m') && Committed(m, m', run) && run.count > 0
    requires forall p :: run.first <= p < run.End() ==> m.pages[p].zone == m.pages[run.first].zone
    ensures Live(m', run)
  {
    assert FreePage(m, run.first);
  }

  lemma {:induction false} AllocatedIsLive(m: Memory, area: AllocationArea, count: nat)
    requires Consistent(m) && Allocate(m, area, count).0.Ok?
    ensures Live(Allocate(m, area, count).1, Allocate(m, area, count).0.value)
  {
    AllocateCommits(m, area, count);
    var (result, m') := Allocate(m, area, count);
    var z: nat :| FirstFit(m, area, count, z, result.value.first);
    FitIsFree(m, area, count, z, result.value.first);
    CommittedIsLive(m, m', result.value);
  }

  lemma {:induction false} ClearUndoesCommit(m: Memory, first: nat, count: nat)
    requires Consistent(m) && first + count <= |m.pages|
    requires forall p :: first <= p < first + count ==> FreePage(m, p)
    ensures forall p :: first <= p < first + count ==> Returnable(Commit(m, first, count), p)
    ensures Clear(Commit(m, first, count), first, count) == m
  {
    var taken := Commit(m, first, count);
    CommitEffect(m, first, count);
    forall p | first <= p < first + count
      ensures Returnable(taken, p)
    {
      assert FreePage(m, p);
    }
    ClearEffect(taken, first, count);
    var cleared := Clear(taken, first, count);
    forall p | 0 <= p < |m.used|
      ensures cleared.used[p] == m.used[p]
    {
      if first <= p < first + count { assert FreePage(m, p); }
    }
    assert cleared.used == m.used;
    forall p | 0 <= p < |m.pages|
      ensures cleared.pages[p] == m.pages[p]
    {
      assert PageAgrees(m, p);
      if first <= p < first + count { assert FreePage(m, p); }
    }
    Determined(cleared, m);
  }

  /** Releasing straight after allocating restores bitmap, descriptors and counters exactly. */
  lemma {:induction false} ReleaseUndoesAllocate(m: Memory, area: AllocationArea, count: nat)
    requires Consistent(m) && Allocate(m, area, count).0.Ok? && |m.pages| < TWO64
    ensures Release(Allocate(m, area, count).1, Allocate(m, area, count).0.value) == Some(m)
  {
    AllocatedIsLive(m, area, count);
    var z, first := GrantedPlace(m, area, count);
    FitIsFree(m, area, count, z, first);
    LiveIsReleasable(Commit(m, first, count), PageRun(first, count));
    ClearUndoesCommit(m, first, count);
  }

  /** A run stays live while another one, apart from it, is released. */
  lemma {:induction false} LiveSurvivesRelease(m: Memory, a: PageRun, b: PageRun)
    requires Consistent(m) && Live(m, a) && Live(m, b) && Apart(a, b) && |m.pages| < TWO64
    ensures Releasable(m, a) && Live(Clear(m, a.first, a.count), b)
  {
    LiveIsReleasable(m, a);
    ClearEffect(m, a.first, a.count);
  }

  /** `r` is `m` with the pages of a run made idle. */
  ghost predicate Cleared(m: Memory, r: Memory, run: PageRun) {
    && SameLayout(m, r)
    && (forall p :: 0 <= p < |m.pages| ==> r.pages[p] == (if run.Has(p) then Idle(m.pages[p]) else m.pages[p]))
    && (forall p :: 0 <= p < |m.used| ==> r.used[p] == (m.used[p] && !run.Has(p)))
  }

  lemma {:induction false} ReleaseClears(m: Memory, run: PageRun)
    requires Consistent(m) && Live(m, run) && |m.pages| < TWO64
    ensures Release(m, run).Some?
    ensures Consistent(Release(m, run).value) && Cleared(m, Release(m, run).value, run)
  {
    LiveIsReleasable(m, run);
    ClearEffect(m, run.first, run.count);
  }

  lemma {:induction false} SameLayoutJoins(m: Memory, a: Memory, b: Memory)
    requires SameLayout(m, a) && SameLayout(m, b)
    ensures SameLayout(a, b)
  {
    forall z | 0 <= z < |a.zones|
      ensures SameBounds(a.zones[z], b.zones[z])
    {
      assert SameBounds(m.zones[z], a.zones[z]) && SameBounds(m.zones[z], b.zones[z]);
    }
  }

  lemma {:induction false} SameLayoutChains(m: Memory, a: Memory, b: Memory)
    requires SameLayout(m, a) && SameLayout(a, b)
    ensures SameLayout(m, b)
  {
    forall z | 0 <= z < |a.zones|
      ensures SameBounds(m.zones[z], b.zones[z])
    {
      assert SameBounds(m.zones[z], a.zones[z]) && SameBounds(a.zones[z], b.zones[z]);
    }
  }

  lemma {:induction false} ClearedOrderFree(
    m: Memory, ma: Memory, ab: Memory, mb: Memory, ba: Memory, a: PageRun, b: PageRun)
    requires Cleared(m, ma, a) && Cleared(ma, ab, b) && Cleared(m, mb, b) && Cleared(mb, ba, a)
    ensures ab.used == ba.used && ab.pages == ba.pages
  {
  }

  /** Two live runs may be released in either order: the state afterwards is the same. */
  lemma {:induction false} ReleasesCommute(m: Memory, a: PageRun, b: PageRun)
    requires Consistent(m) && Live(m, a) && Live(m, b) && Apart(a, b) && |m.pages| < TWO64
    ensures Release(m, a).Some? && Release(m, b).Some?
    ensures Release(Release(m, a).value, b).Some?
    ensures Release(Release(m, a).value, b) == Release(Release(m, b).value, a)
  {
    ReleaseClears(m, a);
    ReleaseClears(m, b);
    var ma, mb := Release(m, a).value, Release(m, b).value;
    LiveSurvivesRelease(m, a, b);
    LiveSurvivesRelease(m, b, a);
    ReleaseClears(ma, b);
    ReleaseClears(mb, a);
    var ab, ba := Release(ma, b).value, Release(mb, a).value;
    ClearedOrderFree(m, ma, ab, mb, ba, a, b);
    SameLayoutChains(m, ma, ab);
    SameLayoutChains(m, mb, ba);
    SameLayoutJoins(m, ab, ba);
    Determined(ab, ba);
  }

  /**
   First fit is stable: if memory has since only got fuller, and the run is free again,
   the same request gets the same run.
   */
  lemma {:induction false} FirstFitStable(
    m: Memory, later: Memory, area: AllocationArea, count: nat, z: nat, first: nat)
    requires Shape(m) && Shape(later) && SameLayout(m, later)
    requires FirstFit(m, area, count, z, first)
    requires forall p :: 0 <= p < |m.used| && !later.used[p] ==> !m.used[p]
    requires FreeRun(later, first, count)
    ensures FirstFit(later, area, count, z, first)
  {
    forall y: nat, f: nat | Fits(later, area, count, y, f)
      ensures z < y || (z == y && first <= f)
    {
      assert SameBounds(m.zones[y], later.zones[y]);
      assert Fits(m, area, count, y, f);
    }
    assert SameBounds(m.zones[z], later.zones[z]);
  }

  // ---------- requests and releases in bytes and flags

  lemma {:induction false} AllFree(used: seq<bool>, lo: nat, hi: nat)
    requires lo <= hi <= |used| && FreeIn(used, lo, hi) == hi - lo
    ensures forall p :: lo <= p < hi ==> !used[p]
    decreases hi
  {
    if lo < hi { AllFree(used, lo, hi - 1); }
  }

  /** `count` free pages from `first`, inside the bytes of zone z, and for `Mapped` below 10 MiB. */
  ghost predicate Room(m: Memory, area: AllocationArea, count: nat, z: nat, first: nat) {
    && z < |m.zones|
    && m.zones[z].startAddress <= first * 0x20_0000 && (first + count) * 0x20_0000 <= m.zones[z].endAddress
    && (area == Mapped ==> (first + count) * 0x20_0000 <= 0xA0_0000)
    && forall p :: first <= p < first + count ==> p < |m.used| && !m.used[p]
  }

  lemma {:induction false} FitsIsRoom(m: Memory, area: AllocationArea, count: nat, z: nat, first: nat)
    requires Consistent(m) && count > 0
    ensures Fits(m, area, count, z, first) <==>
      && z < |m.zones|
      && m.zones[z].startAddress <= first * 0x20_0000 && (first + count) * 0x20_0000 <= m.zones[z].endAddress
      && (area == Mapped ==> (first + count) * 0x20_0000 <= 0xA0_0000)
      && forall p :: first <= p < first + count ==> p < |m.used| && !m.used[p]
  {
    if z < |m.zones| {
      assert ZoneShape(m.zones[z], |m.pages|);
    }
  }

  /**
   What a request answers. It fails with OutOfMemory only when no zone has the room, wherever in the
   zone that may be, its last page included; and it gets the first room there is, zone by zone.
   */
  lemma {:induction false} AllocateAnswers(m: Memory, area: AllocationArea, count: nat)
    requires Consistent(m)
    ensures Allocate(m, area, count).0 == Err(InvalidCount) <==> count == 0
    ensures Allocate(m, area, count).0 == Err(OutOfMemory) <==>
      count > 0 && !exists z: nat, first: nat :: Room(m, area, count, z, first)
    ensures Allocate(m, area, count).0.Ok? ==>
      var run := Allocate(m, area, count).0.value;
      run.count == count && exists z: nat ::
        Room(m, area, count, z, run.first)
        && forall y: nat, f: nat :: Room(m, area, count, y, f) ==> z < y || (z == y && run.first <= f)
  {
    AllocateOutcome(m, area, count);
    if count > 0 {
      forall z: nat, f: nat
        ensures Fits(m, area, count, z, f) <==> Room(m, area, count, z, f)
      {
        FitsIsRoom(m, area, count, z, f);
      }
    }
  }

  /** The pages of a zone may be granted down to the last one: a free zone is granted whole. */
  lemma {:induction false} WholeZoneGranted(m: Memory, z: nat)
    requires Consistent(m) && z < |m.zones| && m.zones[z].pageUsingCount == 0
    ensures Allocate(m, Any, m.zones[z].numberPages).0.Ok?
  {
    var zone := m.zones[z];
    assert ZoneShape(zone, |m.pages|) && ZoneAgrees(m, z);
    AllFree(m.used, zone.Start(), zone.End());
    AllocateAnswers(m, Any, zone.numberPages);
    assert Room(m, Any, zone.numberPages, z, zone.Start());
  }

  /** What a granted request does to the pages and bits. */
  lemma {:induction false} GrantedPages(m: Memory, area: AllocationArea, count: nat)
    requires Consistent(m) && Allocate(m, area, count).0.Ok?
    ensures var (result, m') := Allocate(m, area, count);
      var run := result.value;
      && Consistent(m') && SameLayout(m, m')
      && (forall p: nat :: p < |m.pages| && run.first <= p < run.first + run.count ==>
        && !m.used[p] && m'.used[p] && m'.pages[p].referenceCount == 1
        && Active in m'.pages[p].attribute && Kernel in m'.pages[p].attribute
        && (PageTableMapped in m'.pages[p].attribute <==> (p + 1) * 0x20_0000 <= 0xA0_0000)
        && forall f :: f in m'.pages[p].attribute ==> f in {Active, Kernel, PageTableMapped})
      && (forall p: nat :: p < |m.pages| && !(run.first <= p < run.first + run.count) ==> m'.pages[p] == m.pages[p])
      && (forall p: nat :: p < |m.used| && !(run.first <= p < run.first + run.count) ==> m'.used[p] == m.used[p])
  {
    AllocateCommits(m, area, count);
    var (result, m') := Allocate(m, area, count);
    forall p: nat | p < |m.pages| && result.value.Has(p)
      ensures !m.used[p]
    {
      assert FreePage(m, p);
    }
  }

  /** What a release checks, and what it leaves. A run that fails one check is refused. */
  lemma {:induction false} ReleaseAnswers(m: Memory, run: PageRun)
    requires Consistent(m)
    ensures Release(m, run).Some? <==>
      && run.first + run.count < 0x1_0000_0000_0000_0000 && run.count > 0 && run.first + run.count <= |m.pages|
      && m.pages[run.first].zone.Some?
      && forall p :: run.first <= p < run.first + run.count ==>
        && m.pages[p].zone == m.pages[run.first].zone && m.used[p] && m.pages[p].referenceCount == 1
        && m.pages[p].attribute != {} && KernelInit !in m.pages[p].attribute
    ensures Release(m, run).Some? ==>
      var m' := Release(m, run).value;
      && Consistent(m') && SameLayout(m, m')
      && (forall p: nat :: p < |m.pages| && run.first <= p < run.first + run.count ==>
        !m'.used[p] && m'.pages[p].attribute == {} && m'.pages[p].referenceCount == 0)
      && (forall p: nat :: p < |m.pages| && !(run.first <= p < run.first + run.count) ==> m'.pages[p] == m.pages[p])
      && (forall p: nat :: p < |m.used| && !(run.first <= p < run.first + run.count) ==> m'.used[p] == m.used[p])
  {
    if Releasable(m, run) { ClearEffect(m, run.first, run.count); }
  }
}
