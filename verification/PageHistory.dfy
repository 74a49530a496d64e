/**
 Whole runs of the allocator: any finite interleaving of requests and releases, with the
 run tokens that callers hold. A token is used up by the release that consumes it.
 */
module PageHistory {
  import opened Prelude
  import opened PageModel
  import opened PageRuns

  datatype System = System(memory: Memory, live: seq<PageRun>)

  datatype Op =
    | Request(area: AllocationArea, count: nat)
    | GiveBack(token: nat)   // which of the held tokens is returned

  /** Every page that is used is either reserved by the kernel or part of a run somebody holds. */
  ghost predicate Accounted(s: System, p: nat)
    requires p < |s.memory.pages|
  {
    s.memory.pages[p].zone.Some? && s.memory.pages[p].attribute != {} && KernelInit !in s.memory.pages[p].attribute ==>
      exists i :: 0 <= i < |s.live| && s.live[i].Has(p)
  }

  ghost predicate AllLive(m: Memory, live: seq<PageRun>)
    requires Shape(m)
  {
    forall i :: 0 <= i < |live| ==> Live(m, live[i])
  }

  predicate PairwiseApart(live: seq<PageRun>) {
    forall i, j :: 0 <= i < j < |live| ==> Apart(live[i], live[j])
  }

  ghost predicate Inv(s: System) {
    && Consistent(s.memory)
    && |s.memory.pages| < TWO64
    && AllLive(s.memory, s.live)
    && PairwiseApart(s.live)
    && forall p :: 0 <= p < |s.memory.pages| ==> Accounted(s, p)
  }

  function Without(live: seq<PageRun>, k: nat): seq<PageRun>
    requires k < |live|
  {
    live[..k] + live[k + 1..]
  }

  /** One operation. None is a failed assertion of `release`; a token nobody holds cannot be presented. */
  ghost function Step(s: System, op: Op): Option<System>
    requires Inv(s)
  {
    match op
    case Request(area, count) =>
      var (result, m') := Allocate(s.memory, area, count);
      (match result
       case Ok(run) => Some(System(m', s.live + [run]))
       case Err(_) => Some(System(m', s.live)))
    case GiveBack(k) =>
      if k >= |s.live| then Some(s) else
        match Release(s.memory, s.live[k])
        case None => None
        case Some(m') => Some(System(m', Without(s.live, k)))
  }

  function Pages(live: seq<PageRun>): nat {
    if live == [] then 0 else live[0].count + Pages(live[1..])
  }

  lemma {:induction false} PagesAppend(live: seq<PageRun>, run: PageRun)
    ensures Pages(live + [run]) == Pages(live) + run.count
  {
    if live == [] {
      assert live + [run] == [run];
    } else {
      assert (live + [run])[1..] == live[1..] + [run];
      PagesAppend(live[1..], run);
    }
  }

  lemma {:induction false} PagesWithout(live: seq<PageRun>, k: nat)
    requires k < |live|
    ensures Pages(Without(live, k)) == Pages(live) - live[k].count
  {
    if k == 0 {
      assert Without(live, k) == live[1..];
    } else {
      assert Without(live, k)[0] == live[0] && Without(live, k)[1..] == Without(live[1..], k - 1);
      PagesWithout(live[1..], k - 1);
    }
  }

  /** Pages held plus pages free, the quantity no operation changes. */
  function Stock(s: System): int {
    Pages(s.live) + TotalFree(s.memory.zones)
  }

  ghost predicate Reserved(m: Memory, p: nat)
  {
    p < |m.pages| && KernelInit in m.pages[p].attribute
  }

  /** The pages a run of operations must never touch keep descriptor and bit: reserved pages, unzoned pages, padding. */
  ghost predicate Untouched(m: Memory, m': Memory) {
    && SameLayout(m, m') && |m.pages| <= |m.used|
    && (forall p :: 0 <= p < |m.pages| && (KernelInit in m.pages[p].attribute || m.pages[p].zone.None?) ==>
          m'.pages[p] == m.pages[p] && m'.used[p] == m.used[p])
    && (forall p :: |m.pages| <= p < |m.used| ==> m'.used[p] == m.used[p])
  }

  lemma {:induction false} TakenIsUnreserved(m: Memory, m': Memory, run: PageRun)
    requires Consistent(m) && Committed(m, m', run)
    ensures Untouched(m, m')
  {
    forall p | run.first <= p < run.End()
      ensures m.pages[p].zone.Some? && KernelInit !in m.pages[p].attribute
    {
      assert FreePage(m, p) && PageAgrees(m, p);
    }
  }

  /** A run of free pages cannot meet a run that is held. */
  lemma {:induction false} FreeApartFromLive(m: Memory, held: PageRun, run: PageRun)
    requires Shape(m) && Live(m, held) && run.count > 0 && run.End() <= |m.pages|
    requires forall p :: run.first <= p < run.End() ==> FreePage(m, p)
    ensures Apart(held, run)
  {
    var p := if held.first <= run.first then run.first else held.first;
    assert run.Has(p) ==> FreePage(m, p);
  }

  lemma {:induction false} NewRunFits(s: System, run: PageRun, m': Memory)
    requires Inv(s) && Consistent(m') && Live(m', run) && Committed(s.memory, m', run)
    ensures Inv(System(m', s.live + [run]))
  {
    var s' := System(m', s.live + [run]);
    forall i | 0 <= i < |s.live|
      ensures Live(m', s.live[i]) && Apart(s.live[i], run)
    {
      var other := s.live[i];
      assert Live(s.memory, other);
      FreeApartFromLive(s.memory, other, run);
    }
    forall p | 0 <= p < |m'.pages|
      ensures Accounted(s', p)
    {
      if run.Has(p) {
        assert s'.live[|s.live|] == run;
      } else {
        assert Accounted(s, p);
        if i :| 0 <= i < |s.live| && s.live[i].Has(p) { assert s'.live[i].Has(p); }
      }
    }
  }

  lemma {:induction false} RequestSafe(s: System, area: AllocationArea, count: nat)
    requires Inv(s) && Allocate(s.memory, area, count).0.Ok?
    ensures var (result, m') := Allocate(s.memory, area, count);
      && Inv(System(m', s.live + [result.value]))
      && Stock(System(m', s.live + [result.value])) == Stock(s)
      && Untouched(s.memory, m')
      && forall p :: 0 <= p < |s.memory.used| && s.memory.used[p] ==> m'.used[p]
  {
    AllocatedIsLive(s.memory, area, count);
    AllocateCommits(s.memory, area, count);
    var (result, m') := Allocate(s.memory, area, count);
    PagesAppend(s.live, result.value);
    NewRunFits(s, result.value, m');
    TakenIsUnreserved(s.memory, m', result.value);
  }

  lemma {:induction false} OthersStayLive(s: System, k: nat, m': Memory)
    requires Inv(s) && k < |s.live|
    requires Consistent(m') && Cleared(s.memory, m', s.live[k])
    ensures AllLive(m', Without(s.live, k)) && PairwiseApart(Without(s.live, k))
  {
    var left := Without(s.live, k);
    forall i | 0 <= i < |left|
      ensures Live(m', left[i])
    {
      var j := if i < k then i else i + 1;
      assert left[i] == s.live[j] && Live(s.memory, s.live[j]);
      assert Apart(s.live[j], s.live[k]);
    }
  }

  lemma {:induction false} StillAccounted(s: System, k: nat, m': Memory, p: nat)
    requires Inv(s) && k < |s.live|
    requires Cleared(s.memory, m', s.live[k]) && p < |m'.pages|
    ensures Accounted(System(m', Without(s.live, k)), p)
  {
    assert Accounted(s, p);
    if j :| 0 <= j < |s.live| && s.live[j].Has(p) && j != k {
      assert Without(s.live, k)[if j < k then j else j - 1] == s.live[j];
    }
  }

  lemma {:induction false} OldRunLeaves(s: System, k: nat, m': Memory)
    requires Inv(s) && k < |s.live|
    requires Consistent(m') && Cleared(s.memory, m', s.live[k])
    ensures Inv(System(m', Without(s.live, k)))
  {
    OthersStayLive(s, k, m');
    forall p | 0 <= p < |m'.pages|
      ensures Accounted(System(m', Without(s.live, k)), p)
    {
      StillAccounted(s, k, m', p);
    }
  }

  lemma {:induction false} GiveBackSafe(s: System, k: nat)
    requires Inv(s) && k < |s.live|
    ensures Release(s.memory, s.live[k]).Some?
    ensures var s' := System(Release(s.memory, s.live[k]).value, Without(s.live, k));
      Inv(s') && Stock(s') == Stock(s) && Untouched(s.memory, s'.memory)
  {
    var run := s.live[k];
    assert Live(s.memory, run);
    ReleaseClears(s.memory, run);
    ClearEffect(s.memory, run.first, run.count);
    PagesWithout(s.live, k);
    OldRunLeaves(s, k, Release(s.memory, run).value);
  }

  lemma {:induction false} StepSafe(s: System, op: Op)
    requires Inv(s)
    ensures Step(s, op).Some?
    ensures Inv(Step(s, op).value) && Stock(Step(s, op).value) == Stock(s)
    ensures Untouched(s.memory, Step(s, op).value.memory)
  {
    match op
    case Request(area, count) =>
      AllocateOutcome(s.memory, area, count);
      if Allocate(s.memory, area, count).0.Ok? { RequestSafe(s, area, count); }
    case GiveBack(k) =>
      if k < |s.live| { GiveBackSafe(s, k); }
  }

  ghost function Run(s: System, ops: seq<Op>): Option<System>
    requires Inv(s)
    decreases |ops|
  {
    if ops == [] then Some(s) else
      StepSafe(s, ops[0]);
      Run(Step(s, ops[0]).value, ops[1..])
  }

  lemma {:induction false} UntouchedChains(a: Memory, b: Memory, c: Memory)
    requires Untouched(a, b) && Untouched(b, c)
    ensures Untouched(a, c)
  {
    SameLayoutChains(a, b, c);
  }

  /**
   Every finite history: no assertion of the allocator fails, the three forms agree, live runs
   are disjoint and zone-local, held plus free pages are conserved, and reserved pages, holes
   and padding bits are exactly what they were.
   */
  lemma {:induction false} RunSafe(s: System, ops: seq<Op>)
    requires Inv(s)
    ensures Run(s, ops).Some?
    ensures Inv(Run(s, ops).value)
    ensures Stock(Run(s, ops).value) == Stock(s)
    ensures Untouched(s.memory, Run(s, ops).value.memory)
    decreases |ops|
  {
    if ops == [] {
    } else {
      StepSafe(s, ops[0]);
      var next := Step(s, ops[0]).value;
      RunSafe(next, ops[1..]);
      UntouchedChains(s.memory, next.memory, Run(next, ops[1..]).value.memory);
    }
  }

  /** No run ever handed out meets a reserved page. */
  lemma {:induction false} HeldIsNotReserved(s: System, ops: seq<Op>, i: nat, p: nat)
    requires Inv(s) && Reserved(s.memory, p)
    requires Run(s, ops).Some? && i < |Run(s, ops).value.live|
    ensures !Run(s, ops).value.live[i].Has(p)
  {
    RunSafe(s, ops);
    var s' := Run(s, ops).value;
    assert Live(s'.memory, s'.live[i]);
  }

  // ---------- reuse

  predicate OnlyRequests(ops: seq<Op>) {
    forall i :: 0 <= i < |ops| ==> ops[i].Request?
  }

  /** While nobody gives anything back, tokens stay in place and memory only gets fuller. */
  lemma {:induction false} RequestsOnlyFill(s: System, ops: seq<Op>)
    requires Inv(s) && OnlyRequests(ops)
    ensures Run(s, ops).Some? && s.live <= Run(s, ops).value.live
    ensures SameLayout(s.memory, Run(s, ops).value.memory)
    ensures forall p :: 0 <= p < |s.memory.used| && s.memory.used[p] ==> Run(s, ops).value.memory.used[p]
    decreases |ops|
  {
    if ops == [] {
    } else {
      StepSafe(s, ops[0]);
      var Request(area, count) := ops[0];
      AllocateOutcome(s.memory, area, count);
      if Allocate(s.memory, area, count).0.Ok? { RequestSafe(s, area, count); }
      var next := Step(s, ops[0]).value;
      RequestsOnlyFill(next, ops[1..]);
      SameLayoutChains(s.memory, next.memory, Run(next, ops[1..]).value.memory);
    }
  }

  lemma {:induction false} RefillFindsIt(m: Memory, full: Memory, area: AllocationArea, count: nat)
    requires Consistent(m) && Consistent(full) && SameLayout(m, full) && |m.pages| < TWO64
    requires Allocate(m, area, count).0.Ok? && Live(full, Allocate(m, area, count).0.value)
    requires forall p :: 0 <= p < |m.used| && m.used[p] ==> full.used[p]
    ensures var run := Allocate(m, area, count).0.value;
      && Release(full, run).Some?
      && Consistent(Release(full, run).value)
      && Allocate(Release(full, run).value, area, count).0 == Ok(run)
  {
    AllocateCommits(m, area, count);
    var run := Allocate(m, area, count).0.value;
    var z, first := GrantedPlace(m, area, count);
    ReleaseClears(full, run);
    var freed := Release(full, run).value;
    SameLayoutChains(m, full, freed);
    forall p | 0 <= p < |m.used| && !freed.used[p]
      ensures !m.used[p]
    {
      if run.Has(p) { assert FreePage(m, p); }
    }
    FirstFitStable(m, freed, area, count, z, run.first);
    AllocateTakes(freed, area, count, z, run.first);
  }

  /**
   Reuse: a run is obtained, any number of further requests follow, the run is given back and
   the same request is made again. It gets the very same run.
   */
  lemma {:induction false} SameRunAgain(s: System, area: AllocationArea, count: nat, later: seq<Op>)
    requires Inv(s) && OnlyRequests(later) && Allocate(s.memory, area, count).0.Ok?
    ensures var run := Allocate(s.memory, area, count).0.value;
      var s1 := Step(s, Request(area, count)).value;
      && Inv(s1)
      && Run(s1, later).Some?
      && Consistent(Run(s1, later).value.memory)
      && Release(Run(s1, later).value.memory, run).Some?
      && Consistent(Release(Run(s1, later).value.memory, run).value)
      && Allocate(Release(Run(s1, later).value.memory, run).value, area, count).0 == Ok(run)
  {
    StepSafe(s, Request(area, count));
    RequestSafe(s, area, count);
    var (result, m1) := Allocate(s.memory, area, count);
    var run := result.value;
    var s1 := System(m1, s.live + [run]);
    RequestsOnlyFill(s1, later);
    RunSafe(s1, later);
    var s2 := Run(s1, later).value;
    assert s2.live[|s.live|] == run && Live(s2.memory, run);
    SameLayoutChains(s.memory, m1, s2.memory);
    RefillFindsIt(s.memory, s2.memory, area, count);
  }
}
