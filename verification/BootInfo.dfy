/** The firmware memory map as the kernel accepts it: handoff header, entry table, and the checks made on both. */
module BootInfo {
  import opened Prelude

  const MAX_ENTRIES: nat := 32
  const HEADER: nat := 0x4ff0
  const ENTRIES: nat := 0x5000
  const MAGIC: u32 := 0x3032_3845

  datatype Header = Header(magic: u32, version: u16, entrySize: u16, count: u16, capacity: u16, flags: u32)

  datatype Entry = Entry(address: u64, length: u64, kind: u32)
  {
    function End(): nat { address + length }
    predicate EndFits() { End() < TWO64 }
    predicate Ram() { kind == 1 && length != 0 }
  }

  datatype MapError =
    | InvalidHandoff | InvalidCount          // the header
    | AddressOverflow | Overlap              // the entries
    | LayoutNotRam                           // the fixed boot-time buffers

  function Validate(header: Header): Result<nat, MapError> {
    if header.magic != MAGIC || header.version != 1 || header.entrySize != 20
      || header.capacity != MAX_ENTRIES || header.flags != 1 then Err(InvalidHandoff)
    else if header.count == 0 || header.count > MAX_ENTRIES then Err(InvalidCount)
    else Ok(header.count)
  }

  // ---------- the entry table

  predicate Disjoint(a: Entry, b: Entry) {
    a.End() <= b.address || b.End() <= a.address
  }

  /** Two entries may stand in one table: one of them is empty, or they have no byte in common. */
  predicate Compatible(a: Entry, b: Entry) {
    a.length == 0 || b.length == 0 || Disjoint(a, b)
  }

  /** No end overflows, and the non-empty entries are pairwise disjoint. */
  predicate Acceptable(entries: seq<Entry>) {
    && (forall i :: 0 <= i < |entries| ==> entries[i].EndFits())
    && (forall i, j :: 0 <= i < j < |entries| ==> Compatible(entries[i], entries[j]))
  }

  lemma {:induction false} EntriesCompatible(entries: seq<Entry>, i: nat, j: nat)
    requires Acceptable(entries) && i < |entries| && j < |entries| && i != j
    ensures Compatible(entries[i], entries[j])
  {
    assert i < j ==> Compatible(entries[i], entries[j]);
    assert j < i ==> Compatible(entries[j], entries[i]);
  }

  /** What is wrong with a table whose first `i` entries are fine. */
  predicate FaultAt(entries: seq<Entry>, i: nat, error: MapError)
    requires i < |entries|
  {
    if !entries[i].EndFits() then error == AddressOverflow
    else error == Overlap && exists j :: 0 <= j < i && !Compatible(entries[j], entries[i])
  }

  /** The error is that of the first entry that is not fine. */
  ghost predicate FirstFault(entries: seq<Entry>, error: MapError) {
    exists i: nat :: i < |entries| && Acceptable(entries[..i]) && FaultAt(entries, i, error)
  }

  /** The nested scan accepts exactly the acceptable tables, and reports the first fault otherwise. */
  method ValidateEntries(entries: seq<Entry>) returns (r: Result<(), MapError>)
    ensures r.Ok? <==> Acceptable(entries)
    ensures r.Err? ==> FirstFault(entries, r.error)
  {
    for index := 0 to |entries|
      invariant Acceptable(entries[..index])
    {
      var entry := entries[index];
      assert entries[..index + 1] == entries[..index] + [entry];
      var end := CheckedAdd(entry.address, entry.length);
      if end.None? {
        assert FaultAt(entries, index, AddressOverflow);
        return Err(AddressOverflow);
      }
      if entry.length == 0 {
        continue;
      }
      for k := 0 to index
        invariant forall j :: 0 <= j < k ==> Compatible(entries[j], entry)
      {
        var previous := entries[k];
        assert entries[..index][k].EndFits();
        var previousEnd := previous.address + previous.length;
        if previous.length != 0 && entry.address < previousEnd && previous.address < end.value {
          assert !Compatible(entries[k], entries[index]);
          assert FaultAt(entries, index, Overlap);
          return Err(Overlap);
        }
      }
    }
    assert entries[..|entries|] == entries;
    return Ok(());
  }

  lemma {:induction false} SomewhereOnce(s: seq<Entry>, e: Entry) returns (i: nat)
    requires multiset(s)[e] >= 1
    ensures i < |s| && s[i] == e
  {
    assert s == [s[0]] + s[1..];
    if s[0] == e {
      i := 0;
    } else {
      i := SomewhereOnce(s[1..], e);
      i := i + 1;
    }
  }

  lemma {:induction false} SomewhereTwice(s: seq<Entry>, e: Entry) returns (i: nat, j: nat)
    requires multiset(s)[e] >= 2
    ensures i < j < |s| && s[i] == e && s[j] == e
  {
    assert s == [s[0]] + s[1..];
    if s[0] == e {
      i := 0;
      j := SomewhereOnce(s[1..], e);
      j := j + 1;
    } else {
      i, j := SomewhereTwice(s[1..], e);
      i, j := i + 1, j + 1;
    }
  }

  lemma {:induction false} CountedTwice(s: seq<Entry>, i: nat, j: nat)
    requires i < j < |s| && s[i] == s[j]
    ensures multiset(s)[s[i]] >= 2
  {
    assert s == s[..j] + [s[j]] + s[j + 1..];
    assert s[..j][i] == s[i];
    assert s[i] in multiset(s[..j]);
  }

  lemma {:induction false} AcceptableReordered(a: seq<Entry>, b: seq<Entry>)
    requires multiset(a) == multiset(b) && Acceptable(a)
    ensures Acceptable(b)
  {
    forall i | 0 <= i < |b|
      ensures b[i].EndFits()
    {
      assert b[i] in multiset(b);
      var k := SomewhereOnce(a, b[i]);
    }
    forall i, j | 0 <= i < j < |b|
      ensures Compatible(b[i], b[j])
    {
      if b[i] == b[j] {
        CountedTwice(b, i, j);
        var k, l := SomewhereTwice(a, b[i]);
        assert Compatible(a[k], a[l]);
      } else {
        assert b[i] in multiset(b) && b[j] in multiset(b);
        var k := SomewhereOnce(a, b[i]);
        var l := SomewhereOnce(a, b[j]);
        assert k < l ==> Compatible(a[k], a[l]);
        assert l < k ==> Compatible(a[l], a[k]);
      }
    }
  }

  /** The order of the firmware's entries does not matter. */
  lemma {:induction false} OrderIrrelevant(a: seq<Entry>, b: seq<Entry>)
    requires multiset(a) == multiset(b)
    ensures Acceptable(a) <==> Acceptable(b)
  {
    if Acceptable(a) { AcceptableReordered(a, b); }
    if Acceptable(b) { AcceptableReordered(b, a); }
  }

  // ---------- sums over an accepted table

  function Length(entries: seq<Entry>): nat {
    if entries == [] then 0 else entries[0].length + Length(entries[1..])
  }

  lemma {:induction false} LengthSplit(a: seq<Entry>, b: seq<Entry>)
    ensures Length(a + b) == Length(a) + Length(b)
  {
    if a == [] {
      assert a + b == b;
    } else {
      assert (a + b)[1..] == a[1..] + b;
      LengthSplit(a[1..], b);
    }
  }

  lemma {:induction false} HighestStart(entries: seq<Entry>) returns (k: nat)
    requires entries != []
    ensures k < |entries| && forall i :: 0 <= i < |entries| ==> entries[i].address <= entries[k].address
  {
    if |entries| == 1 {
      k := 0;
    } else {
      k := HighestStart(entries[1..]);
      k := if entries[k + 1].address <= entries[0].address then 0 else k + 1;
      forall i | 0 <= i < |entries|
        ensures entries[i].address <= entries[k].address
      {
        if i > 0 { assert entries[i] == entries[1..][i - 1]; }
      }
    }
  }

  lemma {:induction false} LengthWithout(entries: seq<Entry>, k: nat)
    requires k < |entries|
    ensures Length(entries) == Length(entries[..k] + entries[k + 1..]) + entries[k].length
  {
    LengthSplit(entries[..k], entries[k + 1..]);
    LengthSplit(entries[..k], [entries[k]] + entries[k + 1..]);
    assert entries == entries[..k] + ([entries[k]] + entries[k + 1..]);
  }

  /** Pairwise disjoint non-empty entries below a bound have at most that many bytes together. */
  lemma {:induction false} DisjointLength(entries: seq<Entry>, bound: nat)
    requires Acceptable(entries)
    requires forall i :: 0 <= i < |entries| ==> entries[i].length != 0 && entries[i].End() <= bound
    ensures Length(entries) <= bound
    decreases |entries|
  {
    if entries != [] {
      var k := HighestStart(entries);
      var rest := entries[..k] + entries[k + 1..];
      forall i | 0 <= i < |rest|
        ensures rest[i].length != 0 && rest[i].End() <= entries[k].address
      {
        var j := if i < k then i else i + 1;
        assert rest[i] == entries[j];
        EntriesCompatible(entries, j, k);
      }
      DisjointLength(rest, entries[k].address);
      LengthWithout(entries, k);
    }
  }

  /** The RAM entries among the first n. */
  function RamOf(entries: seq<Entry>, n: nat): (r: seq<Entry>)
    requires n <= |entries|
  {
    if n == 0 then []
    else if entries[n - 1].Ram() then RamOf(entries, n - 1) + [entries[n - 1]]
    else RamOf(entries, n - 1)
  }

  lemma {:induction false} RamOfAcceptable(entries: seq<Entry>, n: nat)
    requires n <= |entries| && Acceptable(entries)
    ensures Acceptable(RamOf(entries, n))
    ensures forall i :: 0 <= i < |RamOf(entries, n)| ==>
      RamOf(entries, n)[i].Ram() && exists j :: 0 <= j < n && entries[j] == RamOf(entries, n)[i]
  {
    if n > 0 {
      RamOfAcceptable(entries, n - 1);
      var before := RamOf(entries, n - 1);
      forall i | 0 <= i < |before|
        ensures Compatible(before[i], entries[n - 1])
      {
        var j :| 0 <= j < n - 1 && entries[j] == before[i];
        assert Compatible(entries[j], entries[n - 1]);
      }
      forall i | 0 <= i < |RamOf(entries, n)|
        ensures exists j :: 0 <= j < n && entries[j] == RamOf(entries, n)[i]
      {
        if i < |before| {
          var j :| 0 <= j < n - 1 && entries[j] == before[i];
          assert 0 <= j < n && entries[j] == RamOf(entries, n)[i];
        }
      }
    }
  }

  /** The running RAM total of an accepted table is always a u64. */
  lemma {:induction false} RamTotalFits(entries: seq<Entry>, n: nat)
    requires n <= |entries| && Acceptable(entries)
    ensures Length(RamOf(entries, n)) < TWO64
  {
    RamOfAcceptable(entries, n);
    DisjointLength(RamOf(entries, n), TWO64 - 1);
  }

  // ---------- containment

  predicate Covers(entry: Entry, start: nat, end: nat) {
    entry.Ram() && entry.address <= start && end <= entry.End()
  }

  /** One RAM entry covers the whole of [start, end). */
  predicate ContainsUsable(entries: seq<Entry>, start: nat, end: nat) {
    start < end && exists i :: 0 <= i < |entries| && Covers(entries[i], start, end)
  }

  /** The fixed low buffers that boot has already been using. */
  const BOOT_RANGES: seq<(nat, nat)> :=
    [(HEADER, 0x5318), (0x6000, 0x10000), (0x10000, 0x20000), (0x90000, 0x93000)]

  predicate BootLayoutUsable(entries: seq<Entry>) {
    forall i :: 0 <= i < |BOOT_RANGES| ==> ContainsUsable(entries, BOOT_RANGES[i].0, BOOT_RANGES[i].1)
  }

  // ---------- what is accepted, byte by byte

  lemma {:induction false} HeaderAccepted(header: Header)
    ensures Validate(header).Ok? <==>
      && header.magic == 0x3032_3845 && header.version == 1 && header.entrySize == 20
      && header.capacity == 32 && header.flags == 1 && 1 <= header.count <= 32
    ensures Validate(header).Ok? ==> Validate(header).value == header.count
    ensures Validate(header) == Err(InvalidCount) <==>
      && header.magic == 0x3032_3845 && header.version == 1 && header.entrySize == 20
      && header.capacity == 32 && header.flags == 1 && !(1 <= header.count <= 32)
    ensures Validate(header).Err? ==> Validate(header).error in {InvalidHandoff, InvalidCount}
  {
  }

  predicate HasByte(entry: Entry, byte: nat) {
    entry.address <= byte < entry.address + entry.length
  }

  /** Two entries are compatible when no byte lies in both. */
  lemma {:induction false} NoCommonByte(a: Entry, b: Entry)
    ensures Compatible(a, b) <==> forall byte: nat :: !(HasByte(a, byte) && HasByte(b, byte))
  {
    if !Compatible(a, b) {
      var byte: nat := if a.address <= b.address then b.address else a.address;
      assert HasByte(a, byte) && HasByte(b, byte);
    }
  }

  /** A table is acceptable when every end is a machine number and no byte lies in two entries. */
  lemma {:induction false} TableAccepted(entries: seq<Entry>)
    ensures Acceptable(entries) <==>
      && (forall i :: 0 <= i < |entries| ==> entries[i].address + entries[i].length < 0x1_0000_0000_0000_0000)
      && forall i, j, byte: nat :: 0 <= i < j < |entries| ==> !(HasByte(entries[i], byte) && HasByte(entries[j], byte))
  {
    forall i, j | 0 <= i < j < |entries|
      ensures Compatible(entries[i], entries[j]) <==>
        forall byte: nat :: !(HasByte(entries[i], byte) && HasByte(entries[j], byte))
    {
      NoCommonByte(entries[i], entries[j]);
    }
    assert forall i :: 0 <= i < |entries| ==>
      (entries[i].EndFits() <==> entries[i].address + entries[i].length < 0x1_0000_0000_0000_0000);
  }

  ghost predicate SharesByteBefore(entries: seq<Entry>, i: nat)
    requires i < |entries|
  {
    exists j, byte: nat :: 0 <= j < i && HasByte(entries[j], byte) && HasByte(entries[i], byte)
  }

  /** Which fault of an entry is reported: its end is no machine number, or a byte of it lies in an earlier one. */
  lemma {:induction false} FaultMeans(entries: seq<Entry>, i: nat, error: MapError)
    requires i < |entries|
    ensures FaultAt(entries, i, error) <==>
      (if entries[i].address + entries[i].length >= 0x1_0000_0000_0000_0000 then error == AddressOverflow
       else error == Overlap && SharesByteBefore(entries, i))
  {
    forall j | 0 <= j < i
      ensures Compatible(entries[j], entries[i]) <==>
        forall byte: nat :: !(HasByte(entries[j], byte) && HasByte(entries[i], byte))
    {
      NoCommonByte(entries[j], entries[i]);
    }
  }

  /** The stretch lies in one entry of RAM. */
  ghost predicate InRam(entries: seq<Entry>, start: nat, end: nat) {
    exists i :: 0 <= i < |entries|
      && entries[i].kind == 1 && entries[i].address <= start && end <= entries[i].address + entries[i].length
  }

  lemma {:induction false} UsableIsInRam(entries: seq<Entry>, start: nat, end: nat)
    ensures ContainsUsable(entries, start, end) <==> start < end && InRam(entries, start, end)
  {
    if start < end && InRam(entries, start, end) {
      var i :| 0 <= i < |entries|
        && entries[i].kind == 1 && entries[i].address <= start && end <= entries[i].address + entries[i].length;
      assert Covers(entries[i], start, end);
    }
    if ContainsUsable(entries, start, end) {
      var i :| 0 <= i < |entries| && Covers(entries[i], start, end);
      assert entries[i].kind == 1 && entries[i].address <= start && end <= entries[i].address + entries[i].length;
    }
  }

  /** What boot has been using must be RAM: handoff, early stack and VBE scratch, loader, early page tables. */
  lemma {:induction false} BootLayout(entries: seq<Entry>)
    ensures BootLayoutUsable(entries) <==>
      && InRam(entries, 0x4ff0, 0x5318) && InRam(entries, 0x6000, 0x1_0000)
      && InRam(entries, 0x1_0000, 0x2_0000) && InRam(entries, 0x9_0000, 0x9_3000)
  {
    UsableIsInRam(entries, 0x4ff0, 0x5318);
    UsableIsInRam(entries, 0x6000, 0x1_0000);
    UsableIsInRam(entries, 0x1_0000, 0x2_0000);
    UsableIsInRam(entries, 0x9_0000, 0x9_3000);
    assert BOOT_RANGES[0] == (0x4ff0, 0x5318) && BOOT_RANGES[1] == (0x6000, 0x1_0000);
    assert BOOT_RANGES[2] == (0x1_0000, 0x2_0000) && BOOT_RANGES[3] == (0x9_0000, 0x9_3000);
  }
}
