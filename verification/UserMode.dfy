/**
 The user mapping: four-level tables that open two 4 KiB pages to user code, and the two-interval
 pointer check.
 */
module UserMode {
  import opened Prelude
  import opened Bits

  const CODE: nat := 0x80_0000
  const STACK: nat := 0x9f_f000
  const STACK_TOP: nat := 0xa0_0000
  const PAGE: nat := 0x1000
  const PRESENT: nat := 1
  const WRITE: nat := 2
  const USER: nat := 4
  const NX: nat := 0x8000_0000_0000_0000
  const BRANCH: nat := 7

  type Table = seq<nat>
  /** Physical memory as far as the page walk is concerned: tables by their physical address. */
  type Tables = map<nat, Table>

  // ---------- the page walk (Intel SDM Vol. 3A, sections 4.5 and 4.6)

  predicate Canonical(va: nat) {
    va < 0x8000_0000_0000 || 0xffff_8000_0000_0000 <= va < TWO64
  }

  predicate UserEntry(e: nat) {
    e % 2 == 1 && e / USER % 2 == 1
  }

  predicate Writable(e: nat) { e / WRITE % 2 == 1 }

  predicate NoExecute(e: nat) { e / NX % 2 == 1 }

  predicate Large(e: nat) { e / 0x80 % 2 == 1 }

  /** Bits 12 to 51. */
  function Frame(e: nat): nat {
    e / PAGE % 0x100_0000_0000 * PAGE
  }

  /** What user code may do with one byte, and which physical byte it is. */
  datatype Access = Access(physical: nat, writable: bool, executable: bool)

  /** The table entry that maps `va` at a level whose entries span `span` bytes, if user code may pass it. */
  function Entry(tables: Tables, table: nat, va: nat, span: nat): Option<nat>
    requires span > 0
  {
    var index := va / span % 512;
    if table in tables && index < |tables[table]| && UserEntry(tables[table][index])
    then Some(tables[table][index]) else None
  }

  const SPAN_PML4: nat := 0x80_0000_0000
  const SPAN_PDPT: nat := 0x4000_0000
  const SPAN_PD: nat := 0x20_0000

  /** Every level must allow a write; any level may forbid execution. */
  function Leaf(path: seq<nat>, va: nat, span: nat): Access
    requires path != [] && span > 0
  {
    Access(Frame(path[|path| - 1]) / span * span + va % span,
           forall i :: 0 <= i < |path| ==> Writable(path[i]),
           forall i :: 0 <= i < |path| ==> !NoExecute(path[i]))
  }

  /** The walk for a user access; None is a page fault (or a non-canonical address). */
  function Walk(tables: Tables, root: nat, va: nat): Option<Access> {
    if !Canonical(va) then None else
    var e4 := Entry(tables, root, va, SPAN_PML4);
    if e4.None? then None else
    var e3 := Entry(tables, Frame(e4.value), va, SPAN_PDPT);
    if e3.None? then None else
    if Large(e3.value) then Some(Leaf([e4.value, e3.value], va, SPAN_PDPT)) else
    var e2 := Entry(tables, Frame(e3.value), va, SPAN_PD);
    if e2.None? then None else
    if Large(e2.value) then Some(Leaf([e4.value, e3.value, e2.value], va, SPAN_PD)) else
    var e1 := Entry(tables, Frame(e2.value), va, PAGE);
    if e1.None? then None else
    Some(Leaf([e4.value, e3.value, e2.value, e1.value], va, PAGE))
  }

  // ---------- entries that install_mapping writes

  lemma {:induction false} Pow2Twelve()
    ensures Pow2(12) == PAGE && Pow2(63) == NX
  {
    assert Pow2(12) == 4096;
    assert Pow2(24) == Pow2(12) * 4096;
    assert Pow2(36) == Pow2(24) * 4096;
    assert Pow2(48) == Pow2(36) * 4096;
    assert Pow2(60) == Pow2(48) * 4096;
    assert Pow2(63) == 8 * Pow2(60);
  }

  lemma {:induction false} LowBit(x: nat, f: nat)
    ensures (2 * x + f) % 2 == f % 2
  {
  }

  lemma {:induction false} LowFields(q: nat, f: nat)
    requires f < 8
    ensures (PAGE * q + f) % 2 == f % 2
    ensures (PAGE * q + f) / 2 % 2 == f / 2 % 2
    ensures (PAGE * q + f) / 4 % 2 == f / 4 % 2
  {
    LowBit(2048 * q, f);
    LowBit(1024 * q, f / 2);
    LowBit(512 * q, f / 4);
    assert (PAGE * q + f) / 2 == 2 * (1024 * q) + f / 2;
    assert (PAGE * q + f) / 4 == 2 * (512 * q) + f / 4;
  }

  lemma {:induction false} HighFields(q: nat, f: nat)
    requires f < 8
    ensures (PAGE * q + f) / 0x80 % 2 == 0
    ensures (PAGE * q + f) / PAGE == q
  {
    assert (PAGE * q + f) / 0x80 == 2 * (16 * q);
  }

  /** An aligned address or-ed with low flags is their sum, */
  lemma {:induction false} OrFlags(address: nat, flags: nat)
    requires address % PAGE == 0 && flags < 8
    ensures Or(address, flags) == address + flags
  {
    Pow2Twelve();
    OrDisjoint(address, flags, 12);
  }

  lemma {:induction false} OrNoExecute(e: nat)
    requires e < NX
    ensures Or(NX, e) == NX + e
  {
    Pow2Twelve();
    OrDisjoint(NX, e, 63);
  }

  /** and the walk reads both back. */
  lemma {:induction false} EntryOf(address: nat, flags: nat)
    requires address % PAGE == 0 && address < 0x10_0000_0000_0000 && flags < 8
    ensures Frame(address + flags) == address
    ensures UserEntry(address + flags) == (flags % 2 == 1 && flags / 4 % 2 == 1)
    ensures Writable(address + flags) == (flags / 2 % 2 == 1)
    ensures !Large(address + flags) && !NoExecute(address + flags)
  {
    var q := address / PAGE;
    assert address == PAGE * q;
    LowFields(q, flags);
    HighFields(q, flags);
    assert (address + flags) / NX == 0;
  }

  lemma {:induction false} NoExecuteFrame(e: nat)
    requires e < 0x20_0000_0000_0000
    ensures Frame(NX + e) == Frame(e) && NoExecute(NX + e)
  {
    assert (NX + e) / PAGE == 0x8_0000_0000_0000 + e / PAGE;
    assert (NX + e) / NX == 1;
  }

  lemma {:induction false} NoExecuteFlags(e: nat)
    ensures UserEntry(NX + e) == UserEntry(e) && Writable(NX + e) == Writable(e) && Large(NX + e) == Large(e)
  {
    LowBit(0x4000_0000_0000_0000, e);
    LowBit(0x2000_0000_0000_0000, e / 2);
    LowBit(0x1000_0000_0000_0000, e / 4);
    LowBit(0x80_0000_0000_0000, e / 0x80);
    assert (NX + e) / 2 == 0x4000_0000_0000_0000 + e / 2;
    assert (NX + e) / 4 == 0x2000_0000_0000_0000 + e / 4;
    assert (NX + e) / 0x80 == 0x100_0000_0000_0000 + e / 0x80;
  }

  /** Bit 63 on top of a table entry changes nothing but the right to execute. */
  lemma {:induction false} NoExecuteEntryOf(e: nat)
    requires e < 0x20_0000_0000_0000
    ensures Frame(NX + e) == Frame(e) && NoExecute(NX + e)
    ensures UserEntry(NX + e) == UserEntry(e) && Writable(NX + e) == Writable(e) && Large(NX + e) == Large(e)
  {
    NoExecuteFrame(e);
    NoExecuteFlags(e);
  }

  // ---------- what the installed tables map

  predicate Aligned(address: nat) {
    address % PAGE == 0 && address < 0x10_0000_0000_0000
  }

  /** Where the four tables live. */
  datatype Places = Places(root: nat, pdpt: nat, pd: nat, pt: nat)
  {
    predicate Usable() {
      && root != pdpt && root != pd && root != pt && pdpt != pd && pdpt != pt && pd != pt
      && Aligned(root) && Aligned(pdpt) && Aligned(pd) && Aligned(pt)
    }
  }

  /** No entry outside `open` lets user code through. */
  predicate OnlyOpen(table: Table, open: set<nat>) {
    |table| == 512 && forall i: nat :: i < 512 && i !in open ==> !UserEntry(table[i])
  }

  ghost predicate Installed(tables: Tables, at: Places, physical: nat) {
    && at.Usable() && Aligned(physical) && Aligned(physical + PAGE)
    && at.root in tables && at.pdpt in tables && at.pd in tables && at.pt in tables
    && OnlyOpen(tables[at.root], {0}) && tables[at.root][0] == at.pdpt + BRANCH
    && OnlyOpen(tables[at.pdpt], {0}) && tables[at.pdpt][0] == at.pd + BRANCH
    && OnlyOpen(tables[at.pd], {4}) && tables[at.pd][4] == at.pt + BRANCH
    && OnlyOpen(tables[at.pt], {0, 511})
    && tables[at.pt][0] == physical + (PRESENT + USER)
    && tables[at.pt][511] == NX + (physical + PAGE + BRANCH)
  }

  /** What user code can reach, said without any table. */
  function Granted(physical: nat, va: nat): Option<Access> {
    if CODE <= va < CODE + PAGE then Some(Access(physical + (va - CODE), false, true))
    else if STACK <= va < STACK_TOP then Some(Access(physical + PAGE + (va - STACK), true, false))
    else None
  }

  /** Which addresses take the four entries that are open. */
  lemma {:induction false} OpenIndices(va: nat)
    requires Canonical(va)
    ensures va / SPAN_PML4 % 512 == 0 <==> va < SPAN_PML4
    ensures va < SPAN_PML4 ==> (va / SPAN_PDPT % 512 == 0 <==> va < SPAN_PDPT)
    ensures va < SPAN_PDPT ==> (va / SPAN_PD % 512 == 4 <==> CODE <= va < STACK_TOP)
    ensures CODE <= va < STACK_TOP ==> (va / PAGE % 512 == 0 <==> va < CODE + PAGE)
    ensures CODE <= va < STACK_TOP ==> (va / PAGE % 512 == 511 <==> STACK <= va)
  {
  }

  /** Inside the window the walk always reaches the last table. */
  lemma {:induction false} WalkToLast(tables: Tables, at: Places, physical: nat, va: nat)
    requires Installed(tables, at, physical) && CODE <= va < STACK_TOP
    ensures var e1 := Entry(tables, at.pt, va, PAGE);
      Walk(tables, at.root, va) ==
        if e1.None? then None else Some(Leaf([at.pdpt + BRANCH, at.pd + BRANCH, at.pt + BRANCH, e1.value], va, PAGE))
  {
    OpenIndices(va);
    EntryOf(at.pdpt, BRANCH);
    EntryOf(at.pd, BRANCH);
    EntryOf(at.pt, BRANCH);
  }

  lemma {:induction false} PathRights(e4: nat, e3: nat, e2: nat, e1: nat)
    ensures var path := [e4, e3, e2, e1];
      && ((forall i :: 0 <= i < |path| ==> Writable(path[i])) <==>
        Writable(e4) && Writable(e3) && Writable(e2) && Writable(e1))
      && ((forall i :: 0 <= i < |path| ==> !NoExecute(path[i])) <==>
        !NoExecute(e4) && !NoExecute(e3) && !NoExecute(e2) && !NoExecute(e1))
  {
    var path := [e4, e3, e2, e1];
    assert path[0] == e4 && path[1] == e3 && path[2] == e2 && path[3] == e1;
  }

  /** The branch entries allow everything, so the last entry decides. */
  lemma {:induction false} LastEntryDecides(at: Places, e1: nat, va: nat)
    requires at.Usable()
    ensures Leaf([at.pdpt + BRANCH, at.pd + BRANCH, at.pt + BRANCH, e1], va, PAGE)
      == Access(Frame(e1) + va % PAGE, Writable(e1), !NoExecute(e1))
  {
    EntryOf(at.pdpt, BRANCH);
    EntryOf(at.pd, BRANCH);
    EntryOf(at.pt, BRANCH);
    PathRights(at.pdpt + BRANCH, at.pd + BRANCH, at.pt + BRANCH, e1);
  }

  lemma {:induction false} CodeOffset(va: nat)
    requires CODE <= va < CODE + PAGE
    ensures va / PAGE % 512 == 0 && va % PAGE == va - CODE
  {
  }

  lemma {:induction false} CodeLeaf(tables: Tables, at: Places, physical: nat, va: nat)
    requires Installed(tables, at, physical) && CODE <= va < CODE + PAGE
    ensures Walk(tables, at.root, va) == Some(Access(physical + (va - CODE), false, true))
  {
    WalkToLast(tables, at, physical, va);
    CodeOffset(va);
    EntryOf(physical, PRESENT + USER);
    LastEntryDecides(at, physical + (PRESENT + USER), va);
  }

  lemma {:induction false} StackOffset(va: nat)
    requires STACK <= va < STACK_TOP
    ensures va / PAGE % 512 == 511 && va % PAGE == va - STACK
  {
  }

  lemma {:induction false} StackEntry(physical: nat)
    requires Aligned(physical + PAGE)
    ensures var e := NX + (physical + PAGE + BRANCH);
      Frame(e) == physical + PAGE && UserEntry(e) && Writable(e) && NoExecute(e)
  {
    EntryOf(physical + PAGE, BRANCH);
    NoExecuteEntryOf(physical + PAGE + BRANCH);
  }

  lemma {:induction false} StackLeaf(tables: Tables, at: Places, physical: nat, va: nat)
    requires Installed(tables, at, physical) && STACK <= va < STACK_TOP
    ensures Walk(tables, at.root, va) == Some(Access(physical + PAGE + (va - STACK), true, false))
  {
    WalkToLast(tables, at, physical, va);
    StackOffset(va);
    StackEntry(physical);
    LastEntryDecides(at, NX + (physical + PAGE + BRANCH), va);
  }

  /** Over the whole address space, the walk grants exactly the two pages, each with its own rights. */
  lemma {:induction false} WalkIsGranted(tables: Tables, at: Places, physical: nat, va: nat)
    requires Installed(tables, at, physical) && va < TWO64
    ensures Walk(tables, at.root, va) == Granted(physical, va)
  {
    if CODE <= va < CODE + PAGE {
      CodeLeaf(tables, at, physical, va);
    } else if STACK <= va < STACK_TOP {
      StackLeaf(tables, at, physical, va);
    } else if CODE <= va < STACK_TOP {
      WalkToLast(tables, at, physical, va);
      OpenIndices(va);
    } else if Canonical(va) {
      OpenIndices(va);
      EntryOf(at.pdpt, BRANCH);
      EntryOf(at.pd, BRANCH);
    }
  }

  /**
   What user code sees, over all 64-bit addresses: from 0x800000 on one page to read and run, below
   0xA00000 one page to read and write, and nothing else.
   */
  lemma {:induction false} UserSees(tables: Tables, at: Places, physical: nat, va: nat)
    requires Installed(tables, at, physical) && va < 0x1_0000_0000_0000_0000
    ensures Walk(tables, at.root, va).Some? <==> 0x80_0000 <= va < 0x80_1000 || 0x9F_F000 <= va < 0xA0_0000
    ensures 0x80_0000 <= va < 0x80_1000 ==> var access := Walk(tables, at.root, va).value;
      access.physical == physical + (va - 0x80_0000) && !access.writable && access.executable
    ensures 0x9F_F000 <= va < 0xA0_0000 ==> var access := Walk(tables, at.root, va).value;
      access.physical == physical + 0x1000 + (va - 0x9F_F000) && access.writable && !access.executable
  {
    WalkIsGranted(tables, at, physical, va);
  }

  // ---------- the pointer check

  /** `readable`. */
  predicate Readable(address: u64, length: u64) {
    var end := CheckedAdd(address, length);
    end.Some? && ((CODE <= address && end.value <= CODE + PAGE) || (STACK <= address && end.value <= STACK_TOP))
  }

  /** User code can reach the i-th byte from an address; addresses wrap around at 2^64. */
  predicate ByteAccessible(tables: Tables, root: nat, address: u64, i: nat) {
    Walk(tables, root, (address + i) % TWO64).Some?
  }

  ghost predicate AllAccessible(tables: Tables, root: nat, address: u64, length: u64) {
    forall i: nat :: i < length ==> ByteAccessible(tables, root, address, i)
  }

  predicate Open(va: nat) {
    CODE <= va < CODE + PAGE || STACK <= va < STACK_TOP
  }

  lemma {:induction false} AccessibleIsOpen(tables: Tables, at: Places, physical: nat, address: u64, i: nat)
    requires Installed(tables, at, physical)
    ensures ByteAccessible(tables, at.root, address, i) <==> Open((address + i) % TWO64)
  {
    WalkIsGranted(tables, at, physical, (address + i) % TWO64);
  }

  /** The page that holds the first byte is followed by a closed one; a range that stops before it is readable. */
  lemma {:induction false} GapBehind(address: u64, length: u64) returns (gap: nat)
    requires Open(address)
    ensures !Open((address + gap) % TWO64)
    ensures length <= gap ==> Readable(address, length)
  {
    gap := if address < STACK then CODE + PAGE - address else STACK_TOP - address;
  }

  lemma {:induction false} AccessibleIsReadable(tables: Tables, at: Places, physical: nat, address: u64, length: u64)
    requires Installed(tables, at, physical) && length > 0
    requires AllAccessible(tables, at.root, address, length)
    ensures Readable(address, length)
  {
    assert ByteAccessible(tables, at.root, address, 0);
    AccessibleIsOpen(tables, at, physical, address, 0);
    var gap := GapBehind(address, length);
    AccessibleIsOpen(tables, at, physical, address, gap);
    assert !ByteAccessible(tables, at.root, address, gap);
  }

  /** For a non-empty range the two-interval shortcut agrees with the page walk, on every address and length. */
  lemma {:induction false} ReadableIsAccessible(tables: Tables, at: Places, physical: nat, address: u64, length: u64)
    requires Installed(tables, at, physical) && length > 0
    ensures Readable(address, length) <==> AllAccessible(tables, at.root, address, length)
  {
    if Readable(address, length) {
      forall i: nat | i < length
        ensures ByteAccessible(tables, at.root, address, i)
      {
        AccessibleIsOpen(tables, at, physical, address, i);
      }
    }
    if AllAccessible(tables, at.root, address, length) {
      AccessibleIsReadable(tables, at, physical, address, length);
    }
  }

  /**
   For length zero there is no byte to ask about, and the check still wants the address inside, or just
   behind, a page.
   */
  lemma {:induction false} ReadableOfNothing(tables: Tables, root: nat, address: u64)
    ensures AllAccessible(tables, root, address, 0)
    ensures Readable(address, 0) <==> CODE <= address <= CODE + PAGE || STACK <= address <= STACK_TOP
  {
  }

  /** Inputs on which it fails: nothing at address 0 is refused, nothing just behind the code page is accepted. */
  lemma {:induction false} NothingIsRefused(tables: Tables, at: Places, physical: nat)
    requires Installed(tables, at, physical)
    ensures AllAccessible(tables, at.root, 0, 0) && !Readable(0, 0)
    ensures Readable(CODE + PAGE, 0) && !ByteAccessible(tables, at.root, CODE + PAGE, 0)
  {
    ReadableOfNothing(tables, at.root, 0);
    AccessibleIsOpen(tables, at, physical, CODE + PAGE, 0);
  }

  // ---------- installing and clearing

  ghost predicate NothingReachable(tables: Tables, root: nat) {
    forall va: nat :: Walk(tables, root, va).None?
  }

  /** The tables with entry 0 of the root cleared. */
  function RootCleared(tables: Tables, root: nat): Tables
    requires root in tables && |tables[root]| > 0
  {
    tables[root := tables[root][0 := 0]]
  }

  /** Clearing that one entry takes away every user address at once. */
  lemma {:induction false} ClearedIsUnreachable(tables: Tables, root: nat)
    requires root in tables && OnlyOpen(tables[root], {0})
    ensures NothingReachable(RootCleared(tables, root), root)
  {
    var table := RootCleared(tables, root)[root];
    assert OnlyOpen(table, {});
    forall va: nat
      ensures Walk(RootCleared(tables, root), root, va).None?
    {
      assert !UserEntry(table[va / SPAN_PML4 % 512]);
    }
  }

  class UserSpace {
    const at: Places
    const root: array<nat>
    const pdpt: array<nat>
    const pd: array<nat>
    const pt: array<nat>
    ghost const others: Tables   // all other tables in physical memory

    /** The entries that `install_mapping` never writes are as the static tables began: zero. */
    ghost predicate Untouched()
      requires root.Length == pdpt.Length == pd.Length == pt.Length == 512
      reads this, root, pdpt, pd, pt
    {
      && (forall i :: 0 <= i < 512 && i != 0 ==> pdpt[i] == 0)
      && (forall i :: 0 <= i < 512 && i != 4 ==> pd[i] == 0)
      && (forall i :: 0 <= i < 512 && i != 0 && i != 511 ==> pt[i] == 0)
    }

    ghost predicate Valid()
      reads this, root, pdpt, pd, pt
    {
      && root.Length == pdpt.Length == pd.Length == pt.Length == 512
      && root != pdpt && root != pd && root != pt && pdpt != pd && pdpt != pt && pd != pt
      && at.Usable()
      && OnlyOpen(root[..], {0})   // boot left nothing user-accessible in the root
      && Untouched()
    }

    ghost function View(): Tables
      reads this, root, pdpt, pd, pt
    {
      others[at.root := root[..]][at.pdpt := pdpt[..]][at.pd := pd[..]][at.pt := pt[..]]
    }

    /** Whatever an earlier mapping left in the lower tables is overwritten. */
    method InstallMapping(physical: nat)
      requires Valid() && root[0] == 0
      requires Aligned(physical) && Aligned(physical + PAGE)
      modifies root, pdpt, pd, pt
      ensures Valid() && Installed(View(), at, physical)
    {
      OrFlags(at.pdpt, BRANCH);
      OrFlags(at.pd, BRANCH);
      OrFlags(at.pt, BRANCH);
      OrFlags(physical, PRESENT + USER);
      OrFlags(physical + PAGE, BRANCH);
      OrNoExecute(physical + PAGE + BRANCH);
      pdpt[0] := Or(at.pd, BRANCH);
      pd[4] := Or(at.pt, BRANCH);
      pt[0] := Or(physical, PRESENT + USER);
      pt[511] := Or(NX, Or(physical + PAGE, PRESENT + WRITE + USER));
      assert pt[510] == 0 && pt[1] == 0;
      root[0] := Or(at.pdpt, BRANCH);
    }

    /** Clearing the root entry takes away every user address at once. */
    method ClearMapping()
      requires Valid()
      modifies root
      ensures Valid() && View() == RootCleared(old(View()), at.root)
    {
      ghost var before := View();
      root[0] := 0;
      assert root[..] == before[at.root][0 := 0];
      assert View() == RootCleared(before, at.root);
    }
  }
}
