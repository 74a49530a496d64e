/**
 The loader's collection of the firmware memory map, against a BIOS that may answer anything,
 and the kernel's reading of what was handed over.
 */
module E820 {
  import opened Prelude
  import opened ByteMemory
  import opened BootInfo

  const SCRATCH: nat := 0x5300
  const SMAP: u32 := 0x534d_4150
  const ENTRY_SIZE: nat := 20
  const TABLE_END: nat := 0x5280
  const LOW_MEMORY: nat := 0x6000

  /** What one INT 15h call leaves: the carry flag, registers, and the 24 scratch bytes it may have written. */
  datatype Response = Response(carry: bool, eax: u32, ecx: u32, ebx: u32, scratch: Bytes)

  /**
   The registers of a call, function number, buffer size, signature and continuation token, and what the
   buffer holds.
   */
  datatype Query = Query(eax: u32, ecx: u32, edx: u32, ebx: u32, buffer: Bytes)

  type Bios = nat -> Response

  ghost predicate Answers(bios: Bios) {
    forall n: nat :: |bios(n).scratch| == 24
  }

  // ---------- decoding

  function DecodeAt(b: Bytes, at: nat): Entry
    requires at + ENTRY_SIZE <= |b|
  {
    Entry(Get64(b, at), Get64(b, at + 8), Get32(b, at + 16))
  }

  function HeaderAt(low: Bytes): Header
    requires |low| >= LOW_MEMORY
  {
    Header(Get32(low, HEADER), Get16(low, HEADER + 4), Get16(low, HEADER + 6),
           Get16(low, HEADER + 8), Get16(low, HEADER + 10), Get32(low, HEADER + 12))
  }

  function SlotOf(k: nat): nat {
    ENTRIES + k * ENTRY_SIZE
  }

  function EntryAt(low: Bytes, k: nat): Entry
    requires |low| >= LOW_MEMORY && k < MAX_ENTRIES
  {
    DecodeAt(low, SlotOf(k))
  }

  // ---------- what a response means

  /** A complete basic or extended entry. */
  predicate Usable(r: Response) {
    !r.carry && r.eax == SMAP && (r.ecx == 20 || r.ecx == 24)
  }

  /** The 20-byte form: a disabled slot loses its length, any other attribute makes the range reserved. */
  function Normalised(r: Response): Entry
    requires |r.scratch| == 24
  {
    var entry := DecodeAt(r.scratch, 0);
    if r.ecx == 20 then entry else
      var attributes := Get32(r.scratch, 20);
      var enabled := if attributes % 2 == 1 then entry else entry.(length := 0);
      if attributes / 2 != 0 then enabled.(kind := 2) else enabled
  }

  function NormalisedAll(bios: Bios, n: nat): (entries: seq<Entry>)
    requires forall k: nat :: |bios(k).scratch| == 24
    ensures |entries| == n
  {
    seq(n, k requires 0 <= k < n => Normalised(bios(k)))
  }

  /**
   The BIOS delivers a map of n entries: n usable answers, only the last of which may say "no more",
   and a proper end.
   */
  ghost predicate Delivers(bios: Bios, n: nat) {
    && 1 <= n <= MAX_ENTRIES
    && (forall k :: 0 <= k < n ==> Usable(bios(k)))
    && (forall k :: 0 <= k < n - 1 ==> bios(k).ebx != 0)
    && (bios(n - 1).ebx == 0 || bios(n).carry)
  }

  // ---------- memory during collection

  /** The header says `count` entries with these flags, and that many slots hold these entries. */
  ghost predicate Collected(low: Bytes, entries: seq<Entry>, flags: u32) {
    && |low| >= LOW_MEMORY && |entries| <= MAX_ENTRIES
    && HeaderAt(low) == Header(MAGIC, 1, 20, |entries|, MAX_ENTRIES, flags)
    && forall k :: 0 <= k < |entries| ==> EntryAt(low, k) == entries[k]
  }

  /** Only the header, the table and the scratch window may differ. */
  predicate OnlyHandoff(before: Bytes, after: Bytes) {
    && |after| == |before|
    && forall a :: 0 <= a < |before| ==> HEADER <= a < TABLE_END || SCRATCH <= a < SCRATCH + 24 || after[a] == before[a]
  }

  lemma {:induction false} HandoffChains(a: Bytes, b: Bytes, c: Bytes)
    requires OnlyHandoff(a, b) && OnlyHandoff(b, c)
    ensures OnlyHandoff(a, c)
  {
  }

  /** A block written into one of the two windows. */
  lemma {:induction false} WriteStaysInside(before: Bytes, now: Bytes, at: nat, block: Bytes)
    requires OnlyHandoff(before, now) && at + |block| <= |now|
    requires (HEADER <= at && at + |block| <= TABLE_END) || (SCRATCH <= at && at + |block| <= SCRATCH + 24)
    ensures OnlyHandoff(before, Overwrite(now, at, block))
  {
  }

  lemma {:induction false} DecodeSame(a: Bytes, i: nat, b: Bytes, j: nat)
    requires i + ENTRY_SIZE <= |a| && j + ENTRY_SIZE <= |b|
    requires a[i..i + ENTRY_SIZE] == b[j..j + ENTRY_SIZE]
    ensures DecodeAt(a, i) == DecodeAt(b, j)
  {
    SliceOfSlice(a, i, ENTRY_SIZE, 0, 8);
    SliceOfSlice(a, i, ENTRY_SIZE, 8, 8);
    SliceOfSlice(a, i, ENTRY_SIZE, 16, 4);
    SliceOfSlice(b, j, ENTRY_SIZE, 0, 8);
    SliceOfSlice(b, j, ENTRY_SIZE, 8, 8);
    SliceOfSlice(b, j, ENTRY_SIZE, 16, 4);
    assert Get64(a, i) == Get64(b, j);
    assert Get64(a, i + 8) == Get64(b, j + 8);
    assert Get32(a, i + 16) == Get32(b, j + 16);
  }

  lemma {:induction false} SlotKept(a: Bytes, b: Bytes, k: nat)
    requires |a| >= LOW_MEMORY && |b| >= LOW_MEMORY && k < MAX_ENTRIES
    requires SameBytes(a, b, SlotOf(k), SlotOf(k + 1))
    ensures EntryAt(a, k) == EntryAt(b, k)
  {
    assert a[SlotOf(k)..SlotOf(k) + ENTRY_SIZE] == b[SlotOf(k)..SlotOf(k) + ENTRY_SIZE];
    DecodeSame(a, SlotOf(k), b, SlotOf(k));
  }

  /** The header's fields before the count. */
  lemma {:induction false} HeaderStartKept(a: Bytes, b: Bytes)
    requires |a| >= LOW_MEMORY && |b| >= LOW_MEMORY && SameBytes(a, b, HEADER, HEADER + 8)
    ensures Get32(a, HEADER) == Get32(b, HEADER)
    ensures Get16(a, HEADER + 4) == Get16(b, HEADER + 4) && Get16(a, HEADER + 6) == Get16(b, HEADER + 6)
  {
    SameSlice(a, b, HEADER, HEADER + 8, HEADER, HEADER + 4);
    SameSlice(a, b, HEADER, HEADER + 8, HEADER + 4, HEADER + 6);
    SameSlice(a, b, HEADER, HEADER + 8, HEADER + 6, HEADER + 8);
  }

  lemma {:induction false} HeaderKept(a: Bytes, b: Bytes)
    requires |a| >= LOW_MEMORY && |b| >= LOW_MEMORY && SameBytes(a, b, HEADER, ENTRIES)
    ensures HeaderAt(a) == HeaderAt(b)
  {
    HeaderStartKept(a, b);
    SameSlice(a, b, HEADER, ENTRIES, HEADER + 8, HEADER + 10);
    SameSlice(a, b, HEADER, ENTRIES, HEADER + 10, HEADER + 12);
    SameSlice(a, b, HEADER, ENTRIES, HEADER + 12, HEADER + 16);
  }

  /** The scratch window is no part of header or table. */
  lemma {:induction false} ScratchKeepsTable(a: Bytes, b: Bytes, entries: seq<Entry>, flags: u32)
    requires Collected(a, entries, flags) && |b| == |a|
    requires forall i :: 0 <= i < |a| && !(SCRATCH <= i < SCRATCH + 24) ==> b[i] == a[i]
    ensures Collected(b, entries, flags) && OnlyHandoff(a, b)
  {
    HeaderKept(b, a);
    forall k | 0 <= k < |entries|
      ensures EntryAt(b, k) == entries[k]
    {
      SlotKept(b, a, k);
    }
  }

  lemma {:induction false} ScratchOverwritten(before: Bytes, cleared: Bytes, scratch: Bytes)
    requires |cleared| == |before| >= LOW_MEMORY && |scratch| == 24
    requires forall i :: 0 <= i < |before| && !(SCRATCH <= i < SCRATCH + 24) ==> cleared[i] == before[i]
    ensures var now := Overwrite(cleared, SCRATCH, scratch);
      forall i :: 0 <= i < |before| && !(SCRATCH <= i < SCRATCH + 24) ==> now[i] == before[i]
  {
  }

  lemma {:induction false} SlotAfterStore(low: Bytes, slot: Bytes, n: nat, k: nat)
    requires |low| >= LOW_MEMORY && k <= n < MAX_ENTRIES && |slot| == ENTRY_SIZE
    ensures EntryAt(Overwrite(low, SlotOf(n), slot), k) == if k < n then EntryAt(low, k) else DecodeAt(slot, 0)
  {
    if k < n {
      WrittenElsewhere(low, SlotOf(n), slot, SlotOf(k), SlotOf(k + 1));
      SlotKept(Overwrite(low, SlotOf(n), slot), low, k);
    } else {
      OverwriteReads(low, SlotOf(n), slot, 0, ENTRY_SIZE);
      DecodeSame(Overwrite(low, SlotOf(n), slot), SlotOf(n), slot, 0);
    }
  }

  lemma {:induction false} CountWritten(low: Bytes, count: u16)
    requires |low| >= LOW_MEMORY
    ensures HeaderAt(Overwrite(low, HEADER + 8, Le16(count))) == HeaderAt(low).(count := count)
  {
    var low' := Overwrite(low, HEADER + 8, Le16(count));
    Get16Written(low, HEADER + 8, count);
    WrittenElsewhere(low, HEADER + 8, Le16(count), HEADER, HEADER + 8);
    WrittenElsewhere(low, HEADER + 8, Le16(count), HEADER + 10, ENTRIES);
    HeaderStartKept(low', low);
    SameSlice(low', low, HEADER + 10, ENTRIES, HEADER + 10, HEADER + 12);
    SameSlice(low', low, HEADER + 10, ENTRIES, HEADER + 12, HEADER + 16);
  }

  /** Storing an entry in the next slot and counting it. */
  lemma {:induction false} SlotStored(low: Bytes, slot: Bytes, entries: seq<Entry>, flags: u32)
    requires Collected(low, entries, flags) && |entries| < MAX_ENTRIES && |slot| == ENTRY_SIZE
    ensures var stored := Overwrite(low, SlotOf(|entries|), slot);
      Collected(Overwrite(stored, HEADER + 8, Le16(|entries| + 1)), entries + [DecodeAt(slot, 0)], flags)
  {
    var n := |entries|;
    var stored := Overwrite(low, SlotOf(n), slot);
    var counted := Overwrite(stored, HEADER + 8, Le16(n + 1));
    WrittenElsewhere(low, SlotOf(n), slot, HEADER, ENTRIES);
    HeaderKept(stored, low);
    CountWritten(stored, n + 1);
    forall k | 0 <= k < n + 1
      ensures EntryAt(counted, k) == (entries + [DecodeAt(slot, 0)])[k]
    {
      WrittenElsewhere(stored, HEADER + 8, Le16(n + 1), SlotOf(k), SlotOf(k + 1));
      SlotKept(counted, stored, k);
      SlotAfterStore(low, slot, n, k);
    }
  }

  lemma {:induction false} FlagWritten(low: Bytes, flags: u32)
    requires |low| >= LOW_MEMORY
    ensures HeaderAt(Overwrite(low, HEADER + 12, Le32(flags))) == HeaderAt(low).(flags := flags)
  {
    Get32Written(low, HEADER + 12, flags);
    WrittenElsewhere(low, HEADER + 12, Le32(flags), HEADER, HEADER + 12);
    var low' := Overwrite(low, HEADER + 12, Le32(flags));
    HeaderStartKept(low', low);
    SameSlice(low', low, HEADER, HEADER + 12, HEADER + 8, HEADER + 10);
    SameSlice(low', low, HEADER, HEADER + 12, HEADER + 10, HEADER + 12);
  }

  lemma {:induction false} FlagStored(low: Bytes, entries: seq<Entry>)
    requires Collected(low, entries, 0)
    ensures Collected(Overwrite(low, HEADER + 12, Le32(1)), entries, 1)
  {
    FlagWritten(low, 1);
    forall k | 0 <= k < |entries|
      ensures EntryAt(Overwrite(low, HEADER + 12, Le32(1)), k) == entries[k]
    {
      WrittenElsewhere(low, HEADER + 12, Le32(1), SlotOf(k), SlotOf(k + 1));
      SlotKept(Overwrite(low, HEADER + 12, Le32(1)), low, k);
    }
  }

  /** Without the flag the kernel rejects the handoff; with it, it accepts any count from 1 to 32. */
  lemma {:induction false} FlagDecides(low: Bytes, entries: seq<Entry>, flags: u32)
    requires Collected(low, entries, flags)
    ensures Validate(HeaderAt(low)).Ok? <==> flags == 1 && entries != []
    ensures Validate(HeaderAt(low)).Ok? ==> Validate(HeaderAt(low)).value == |entries|
  {
  }

  // ---------- the collection loop

  function Zeros(n: nat): (b: Bytes)
    ensures |b| == n && forall k :: 0 <= k < n ==> b[k] == 0
  {
    seq(n, _ => 0)
  }

  /** Magic, version, stride, zero count, capacity: the part of the header that is written before the first call. */
  const HEADER_START: Bytes := [0x45, 0x38, 0x32, 0x30, 1, 0, 20, 0, 0, 0, 32, 0]

  lemma {:induction false} HeaderFromBytes(low: Bytes)
    requires |low| >= LOW_MEMORY && low[HEADER..HEADER + 12] == HEADER_START
    requires low[HEADER + 12] == 0 && low[HEADER + 13] == 0 && low[HEADER + 14] == 0 && low[HEADER + 15] == 0
    ensures HeaderAt(low) == Header(MAGIC, 1, 20, 0, MAX_ENTRIES, 0)
  {
    var h := low[HEADER..HEADER + 12];
    SliceOfSlice(low, HEADER, 12, 0, 4);
    SliceOfSlice(low, HEADER, 12, 4, 2);
    SliceOfSlice(low, HEADER, 12, 6, 2);
    SliceOfSlice(low, HEADER, 12, 8, 2);
    SliceOfSlice(low, HEADER, 12, 10, 2);
    FourBytes(h[0..4]);
    TwoBytes(h[4..6]);
    TwoBytes(h[6..8]);
    TwoBytes(h[8..10]);
    TwoBytes(h[10..12]);
    FourBytes(low[HEADER + 12..HEADER + 16]);
  }

  lemma {:induction false} BlankHeader(before: Bytes, low: Bytes)
    requires |before| >= LOW_MEMORY
    requires low == Overwrite(Overwrite(before, HEADER, Zeros(16 + MAX_ENTRIES * ENTRY_SIZE)), HEADER, HEADER_START)
    ensures Collected(low, [], 0)
    ensures OnlyHandoff(before, low)
  {
    var cleared := Overwrite(before, HEADER, Zeros(16 + MAX_ENTRIES * ENTRY_SIZE));
    WriteStaysInside(before, before, HEADER, Zeros(16 + MAX_ENTRIES * ENTRY_SIZE));
    WriteStaysInside(before, cleared, HEADER, HEADER_START);
    OverwriteReads(cleared, HEADER, HEADER_START, 0, 12);
    assert HEADER_START[0..12] == HEADER_START;
    assert low[HEADER + 12] == 0 && low[HEADER + 13] == 0 && low[HEADER + 14] == 0 && low[HEADER + 15] == 0;
    HeaderFromBytes(low);
  }

  /** Clear the old handoff, then fill in everything of the header except count and flag. */
  method PrepareHeader(low: array<u8>)
    requires low.Length >= LOW_MEMORY
    modifies low
    ensures Collected(low[..], [], 0)
    ensures OnlyHandoff(old(low[..]), low[..])
  {
    WriteBlock(low, HEADER, Zeros(16 + MAX_ENTRIES * ENTRY_SIZE));
    WriteBlock(low, HEADER, HEADER_START);
    BlankHeader(old(low[..]), low[..]);
  }

  lemma {:induction false} LengthCleared(before: Bytes, after: Bytes)
    requires |before| == |after| >= LOW_MEMORY
    requires forall a :: SCRATCH + 8 <= a < SCRATCH + 16 ==> after[a] == 0
    requires SameBytes(after, before, SCRATCH, SCRATCH + 8) && SameBytes(after, before, SCRATCH + 16, SCRATCH + 20)
    ensures DecodeAt(after, SCRATCH) == DecodeAt(before, SCRATCH).(length := 0)
  {
    var length := after[SCRATCH + 8..SCRATCH + 16];
    EightBytes(length);
    FourBytes(length[..4]);
    FourBytes(length[4..]);
    SameSlice(after, before, SCRATCH, SCRATCH + 8, SCRATCH, SCRATCH + 8);
    SameSlice(after, before, SCRATCH + 16, SCRATCH + 20, SCRATCH + 16, SCRATCH + 20);
  }

  method ClearLength(low: array<u8>)
    requires low.Length >= LOW_MEMORY
    modifies low
    ensures DecodeAt(low[..], SCRATCH) == DecodeAt(old(low[..]), SCRATCH).(length := 0)
    ensures forall a :: 0 <= a < low.Length && !(SCRATCH <= a < SCRATCH + 24) ==> low[a] == old(low[a])
  {
    ghost var before := low[..];
    low[SCRATCH + 8], low[SCRATCH + 9], low[SCRATCH + 10], low[SCRATCH + 11] := 0, 0, 0, 0;
    low[SCRATCH + 12], low[SCRATCH + 13], low[SCRATCH + 14], low[SCRATCH + 15] := 0, 0, 0, 0;
    LengthCleared(before, low[..]);
  }

  method MakeReserved(low: array<u8>)
    requires low.Length >= LOW_MEMORY
    modifies low
    ensures DecodeAt(low[..], SCRATCH) == DecodeAt(old(low[..]), SCRATCH).(kind := 2)
    ensures forall a :: 0 <= a < low.Length && !(SCRATCH <= a < SCRATCH + 24) ==> low[a] == old(low[a])
  {
    ghost var before := low[..];
    low[SCRATCH + 16], low[SCRATCH + 17], low[SCRATCH + 18], low[SCRATCH + 19] := 2, 0, 0, 0;
    FourBytes(low[..][SCRATCH + 16..SCRATCH + 20]);
    SameSlice(low[..], before, SCRATCH, SCRATCH + 16, SCRATCH, SCRATCH + 8);
    SameSlice(low[..], before, SCRATCH, SCRATCH + 16, SCRATCH + 8, SCRATCH + 16);
  }

  /** The values in the scratch window are the answer's. */
  lemma {:induction false} ScratchValues(low: Bytes, r: Response)
    requires |low| >= LOW_MEMORY && |r.scratch| == 24 && low[SCRATCH..SCRATCH + 24] == r.scratch
    ensures DecodeAt(low, SCRATCH) == DecodeAt(r.scratch, 0)
    ensures Get32(low, SCRATCH + 20) == Get32(r.scratch, 20)
  {
    SliceOfSlice(low, SCRATCH, 24, 0, ENTRY_SIZE);
    SliceOfSlice(low, SCRATCH, 24, 20, 4);
    DecodeSame(low, SCRATCH, r.scratch, 0);
  }

  /** Turn the 24-byte answer in the scratch window into the 20-byte form, in place. */
  method NormaliseScratch(low: array<u8>, r: Response)
    requires low.Length >= LOW_MEMORY && Usable(r) && |r.scratch| == 24
    requires low[..][SCRATCH..SCRATCH + 24] == r.scratch
    modifies low
    ensures DecodeAt(low[..], SCRATCH) == Normalised(r)
    ensures forall a :: 0 <= a < low.Length && !(SCRATCH <= a < SCRATCH + 24) ==> low[a] == old(low[a])
  {
    ScratchValues(low[..], r);
    if r.ecx == 24 {
      var attributes := Get32(low[..], SCRATCH + 20);
      if attributes % 2 == 0 {
        ClearLength(low);
      }
      if attributes / 2 != 0 {
        MakeReserved(low);
      }
    }
  }

  lemma {:induction false} WentOn(bios: Bios, n: nat, m: nat)
    requires forall k :: 0 <= k < n ==> Usable(bios(k)) && bios(k).ebx != 0
    requires 1 <= m <= n
    ensures bios(m - 1).ebx != 0 && (m < n ==> Usable(bios(m)))
  {
  }

  lemma {:induction false} EachUsable(bios: Bios, n: nat, k: nat)
    requires Delivers(bios, n) && k < n
    ensures Usable(bios(k)) && (0 < k ==> bios(k - 1).ebx != 0)
  {
  }

  lemma {:induction false} NotDelivered(bios: Bios, n: nat, m: nat)
    requires Answers(bios) && n <= MAX_ENTRIES
    requires forall k :: 0 <= k < n ==> Usable(bios(k)) && bios(k).ebx != 0
    requires !bios(n).carry || n == 0
    requires !Usable(bios(n)) || n == MAX_ENTRIES
    ensures !Delivers(bios, m)
  {
    if 1 <= m <= n {
      WentOn(bios, n, m);
    } else if Delivers(bios, m) {
      EachUsable(bios, m, n);
    }
  }

  lemma {:induction false} NothingDelivered(bios: Bios, n: nat)
    requires Answers(bios) && n <= MAX_ENTRIES
    requires forall k :: 0 <= k < n ==> Usable(bios(k)) && bios(k).ebx != 0
    requires !bios(n).carry || n == 0
    requires !Usable(bios(n)) || n == MAX_ENTRIES
    ensures forall m: nat :: !Delivers(bios, m)
  {
    forall m: nat
      ensures !Delivers(bios, m)
    {
      NotDelivered(bios, n, m);
    }
  }

  /** A normalised entry goes into the next slot, and the count goes up. */
  method StoreSlot(low: array<u8>, slot: Bytes, ghost entries: seq<Entry>)
    requires low.Length >= LOW_MEMORY && |slot| == ENTRY_SIZE
    requires Collected(low[..], entries, 0) && |entries| < MAX_ENTRIES
    modifies low
    ensures Collected(low[..], entries + [DecodeAt(slot, 0)], 0)
    ensures OnlyHandoff(old(low[..]), low[..])
  {
    ghost var before := low[..];
    var count := Get16(low[..], HEADER + 8);
    SlotStored(before, slot, entries, 0);
    WriteBlock(low, SlotOf(count), slot);
    WriteStaysInside(before, before, SlotOf(count), slot);
    WriteStaysInside(before, low[..], HEADER + 8, Le16(count + 1));
    WriteBlock(low, HEADER + 8, Le16(count + 1));
  }

  /** One answered call, stored: the scratch window is normalised and copied into the next slot. */
  method StoreAnswer(low: array<u8>, r: Response, ghost entries: seq<Entry>)
    requires low.Length >= LOW_MEMORY && Usable(r) && |r.scratch| == 24
    requires low[..][SCRATCH..SCRATCH + 24] == r.scratch
    requires Collected(low[..], entries, 0) && |entries| < MAX_ENTRIES
    modifies low
    ensures Collected(low[..], entries + [Normalised(r)], 0)
    ensures OnlyHandoff(old(low[..]), low[..])
  {
    ghost var before := low[..];
    NormaliseScratch(low, r);
    ScratchKeepsTable(before, low[..], entries, 0);
    ghost var normal := low[..];
    var slot := low[SCRATCH..SCRATCH + ENTRY_SIZE];
    assert slot[0..0 + ENTRY_SIZE] == normal[SCRATCH..SCRATCH + ENTRY_SIZE];
    DecodeSame(slot, 0, normal, SCRATCH);
    StoreSlot(low, slot, entries);
    HandoffChains(before, normal, low[..]);
  }

  /** The token passed with call k: zero at first, afterwards what the last answer left in EBX. */
  function TokenFor(answers: Bios, k: nat): u32 {
    if k == 0 then 0 else answers(k - 1).ebx
  }

  /** An empty buffer whose attributes say "enabled", for a BIOS that fills in 20 bytes only. */
  const FRESH_BUFFER: Bytes := [0, 0, 0, 0, 0, 0, 0, 0, 0, 0, 0, 0, 0, 0, 0, 0, 0, 0, 0, 0, 1, 0, 0, 0]

  function QueryWith(ebx: u32): Query {
    Query(0xE820, 24, SMAP, ebx, FRESH_BUFFER)
  }

  /** The calls 0 to n - 1, each with the token of the answer before it. */
  ghost predicate Continued(asked: seq<Query>, answers: Bios, n: nat) {
    |asked| == n && forall k :: 0 <= k < n ==> asked[k] == QueryWith(TokenFor(answers, k))
  }

  /** The BIOS: it answers its n-th call with `answers(n)`, whatever that is. */
  class Firmware {
    const answers: Bios
    var calls: nat
    ghost var asked: seq<Query>  // the registers of each call
    ghost var seen: seq<Bytes>   // low memory at the moment each call returned

    ghost predicate Valid()
      reads this
    {
      Answers(answers) && |seen| == |asked| == calls
    }

    constructor (answers: Bios)
      requires Answers(answers)
      ensures Valid() && this.answers == answers && calls == 0
    {
      this.answers, calls, asked, seen := answers, 0, [], [];
    }

    /** INT 15h, E820: registers in the answer, up to 24 bytes in the scratch window. */
    method Int15(low: array<u8>, eax: u32, ecx: u32, edx: u32, ebx: u32) returns (r: Response)
      requires Valid() && low.Length >= LOW_MEMORY
      modifies this, low
      ensures Valid() && calls == old(calls) + 1 && r == answers(old(calls))
      ensures low[..] == Overwrite(old(low[..]), SCRATCH, r.scratch)
      ensures asked == old(asked) + [Query(eax, ecx, edx, ebx, old(low[SCRATCH..SCRATCH + 24]))]
      ensures seen == old(seen) + [low[..]]
    {
      asked := asked + [Query(eax, ecx, edx, ebx, low[SCRATCH..SCRATCH + 24])];
      r := answers(calls);
      calls := calls + 1;
      WriteBlock(low, SCRATCH, r.scratch);
      seen := seen + [low[..]];
    }
  }

  /** Zeros, then the attribute word that a BIOS of the basic form will leave as it is. */
  method ClearScratch(low: array<u8>)
    requires low.Length >= LOW_MEMORY
    modifies low
    ensures low[SCRATCH..SCRATCH + 24] == FRESH_BUFFER
    ensures forall a :: 0 <= a < low.Length && !(SCRATCH <= a < SCRATCH + 24) ==> low[a] == old(low[a])
  {
    forall k | 0 <= k < 24 {
      low[SCRATCH + k] := 0;
    }
    low[SCRATCH + 20] := 1;
  }

  /** A fresh scratch window, then the call. */
  method CallBios(low: array<u8>, bios: Firmware, ebx: u32, ghost entries: seq<Entry>) returns (r: Response)
    requires low.Length >= LOW_MEMORY && bios.Valid() && Collected(low[..], entries, 0)
    modifies low, bios
    ensures bios.Valid() && bios.calls == old(bios.calls) + 1 && r == bios.answers(old(bios.calls))
    ensures bios.asked == old(bios.asked) + [QueryWith(ebx)] && bios.seen == old(bios.seen) + [low[..]]
    ensures Collected(low[..], entries, 0) && OnlyHandoff(old(low[..]), low[..])
    ensures |r.scratch| == 24 && low[..][SCRATCH..SCRATCH + 24] == r.scratch
  {
    ghost var before := low[..];
    ClearScratch(low);
    ghost var cleared := low[..];
    r := bios.Int15(low, 0xE820, 24, SMAP, ebx);
    OverwriteReads(cleared, SCRATCH, r.scratch, 0, 24);
    assert r.scratch[0..24] == r.scratch;
    ScratchOverwritten(before, cleared, r.scratch);
    ScratchKeepsTable(before, low[..], entries, 0);
  }

  datatype Outcome = More | Finished | Failed

  /** The branches after a call, with n entries stored so far. */
  function Decide(r: Response, n: nat): Outcome {
    if r.carry then (if n == 0 then Failed else Finished)
    else if !Usable(r) || n >= MAX_ENTRIES then Failed
    else if r.ebx == 0 then Finished
    else More
  }

  /** The complete flag is the last thing written. */
  method Publish(low: array<u8>, ghost entries: seq<Entry>)
    requires low.Length >= LOW_MEMORY && Collected(low[..], entries, 0)
    modifies low
    ensures Collected(low[..], entries, 1)
    ensures OnlyHandoff(old(low[..]), low[..])
  {
    FlagStored(low[..], entries);
    WriteStaysInside(low[..], low[..], HEADER + 12, Le32(1));
    WriteBlock(low, HEADER + 12, Le32(1));
  }

  method HandleAnswer(low: array<u8>, r: Response, ghost entries: seq<Entry>) returns (outcome: Outcome)
    requires low.Length >= LOW_MEMORY && |r.scratch| == 24
    requires low[..][SCRATCH..SCRATCH + 24] == r.scratch
    requires Collected(low[..], entries, 0)
    modifies low
    ensures OnlyHandoff(old(low[..]), low[..])
    ensures outcome == Decide(r, |entries|)
    ensures outcome == Failed ==> Collected(low[..], entries, 0)
    ensures outcome == More ==> Collected(low[..], entries + [Normalised(r)], 0)
    ensures outcome == Finished ==> Collected(low[..], if r.carry then entries else entries + [Normalised(r)], 1)
  {
    var count := Get16(low[..], HEADER + 8);
    if r.carry {
      if count == 0 {
        return Failed;
      }
      Publish(low, entries);
      return Finished;
    }
    if r.eax != SMAP || (r.ecx != 20 && r.ecx != 24) {
      return Failed;
    }
    if count >= MAX_ENTRIES {
      return Failed;
    }
    ghost var before := low[..];
    StoreAnswer(low, r, entries);
    if r.ebx != 0 {
      return More;
    }
    ghost var stored := low[..];
    Publish(low, entries + [Normalised(r)]);
    HandoffChains(before, stored, low[..]);
    return Finished;
  }

  /** The kernel would refuse this memory. */
  ghost predicate Rejected(low: Bytes) {
    |low| >= LOW_MEMORY && Validate(HeaderAt(low)).Err?
  }

  /** Memory while a call is under way: the entries so far are there, the complete flag is not. */
  ghost predicate Waiting(before: Bytes, now: Bytes, entries: seq<Entry>) {
    Collected(now, entries, 0) && OnlyHandoff(before, now)
  }

  /** What a round with answer r makes of the memory. */
  ghost predicate RoundEffect(now: Bytes, r: Response, entries: seq<Entry>)
    requires |r.scratch| == 24
  {
    match Decide(r, |entries|)
    case More => Collected(now, entries + [Normalised(r)], 0)
    case Finished => Collected(now, if r.carry then entries else entries + [Normalised(r)], 1)
    case Failed => Rejected(now)
  }

  /** One round: call, then act on the answer; `next` is what it left in EBX. */
  method Round(low: array<u8>, bios: Firmware, ebx: u32, ghost entries: seq<Entry>)
    returns (outcome: Outcome, next: u32)
    requires low.Length >= LOW_MEMORY && bios.Valid() && Collected(low[..], entries, 0)
    modifies low, bios
    ensures bios.Valid() && bios.calls == old(bios.calls) + 1
    ensures bios.seen[..|bios.seen| - 1] == old(bios.seen) && Waiting(old(low[..]), bios.seen[|bios.seen| - 1], entries)
    ensures bios.asked == old(bios.asked) + [QueryWith(ebx)]
    ensures outcome == Decide(bios.answers(old(bios.calls)), |entries|) && next == bios.answers(old(bios.calls)).ebx
    ensures RoundEffect(low[..], bios.answers(old(bios.calls)), entries)
    ensures OnlyHandoff(old(low[..]), low[..])
  {
    ghost var before := low[..];
    var r := CallBios(low, bios, ebx, entries);
    next := r.ebx;
    ghost var called := low[..];
    outcome := HandleAnswer(low, r, entries);
    HandoffChains(before, called, low[..]);
    if outcome == Failed {
      FlagDecides(low[..], entries, 0);
    }
  }

  lemma {:induction false} WaitingIsRejected(before: Bytes, now: Bytes, entries: seq<Entry>)
    requires Waiting(before, now, entries)
    ensures Rejected(now)
  {
    FlagDecides(now, entries, 0);
  }

  /** The k-th call returned into such a memory. */
  ghost predicate WaitingAt(before: Bytes, seen: seq<Bytes>, answers: Bios, k: nat)
    requires Answers(answers) && k < |seen|
  {
    Waiting(before, seen[k], NormalisedAll(answers, k))
  }

  /** The n-th call is the last one: the first whose answer ends the loop. */
  ghost predicate LastCall(answers: Bios, n: nat) {
    Decide(answers(n), n) != More && forall k :: 0 <= k < n ==> Decide(answers(k), k) == More
  }

  lemma {:induction false} EarlierGoesOn(answers: Bios, n: nat, k: nat)
    requires LastCall(answers, n) && k < n
    ensures Decide(answers(k), k) == More
  {
  }

  /** There are at most 33 calls, whatever the answers. */
  lemma {:induction false} CallsAreBounded(answers: Bios, n: nat)
    requires LastCall(answers, n)
    ensures n <= MAX_ENTRIES
  {
    if n > MAX_ENTRIES { EarlierGoesOn(answers, n, MAX_ENTRIES); }
  }

  lemma {:induction false} NormalisedNext(bios: Bios, n: nat)
    requires Answers(bios)
    ensures NormalisedAll(bios, n + 1) == NormalisedAll(bios, n) + [Normalised(bios(n))]
  {
  }

  lemma {:induction false} NextCall(
    start: Bytes, before: Bytes, now: Bytes, seen: seq<Bytes>, seen': seq<Bytes>, answers: Bios, n: nat)
    requires Answers(answers) && |seen| == n && |seen'| == n + 1 && seen'[..n] == seen
    requires OnlyHandoff(start, before) && OnlyHandoff(before, now)
    requires forall k :: 0 <= k < n ==> WaitingAt(start, seen, answers, k)
    requires Waiting(before, seen'[n], NormalisedAll(answers, n))
    ensures OnlyHandoff(start, now)
    ensures forall k :: 0 <= k < n + 1 ==> WaitingAt(start, seen', answers, k)
  {
    HandoffChains(start, before, now);
    HandoffChains(start, before, seen'[n]);
    forall k | 0 <= k < n + 1
      ensures WaitingAt(start, seen', answers, k)
    {
      if k < n { assert WaitingAt(start, seen, answers, k) && seen'[k] == seen'[..n][k]; }
    }
  }

  /** Once the loop stops, it has the delivered map, or there is none. */
  lemma {:induction false} OutcomeDecides(bios: Bios, n: nat)
    requires Answers(bios) && n <= MAX_ENTRIES
    requires forall k :: 0 <= k < n ==> Decide(bios(k), k) == More
    ensures Decide(bios(n), n) == Failed ==> forall m: nat :: !Delivers(bios, m)
    ensures Decide(bios(n), n) == Finished ==>
      var m := if bios(n).carry then n else n + 1;
      && Delivers(bios, m)
      && NormalisedAll(bios, m) == if bios(n).carry then NormalisedAll(bios, n)
        else NormalisedAll(bios, n) + [Normalised(bios(n))]
  {
    assert forall k :: 0 <= k < n ==> Decide(bios(k), k) == More ==> Usable(bios(k)) && bios(k).ebx != 0;
    if Decide(bios(n), n) == Failed { NothingDelivered(bios, n); }
  }

  /** In the middle of the loop: n calls were answered, all of them to be continued, and their entries are stored. */
  ghost predicate Collecting(start: Bytes, now: Bytes, answers: Bios, seen: seq<Bytes>, n: nat) {
    && Answers(answers) && |seen| == n <= MAX_ENTRIES
    && (forall k :: 0 <= k < n ==> Decide(answers(k), k) == More)
    && (forall k :: 0 <= k < n ==> WaitingAt(start, seen, answers, k))
    && Collected(now, NormalisedAll(answers, n), 0)
    && OnlyHandoff(start, now)
  }

  /** After one more round the loop is in the middle again, or has ended as it promises. */
  lemma {:induction false} RoundDecides(
    start: Bytes, before: Bytes, now: Bytes, seen: seq<Bytes>, seen': seq<Bytes>, answers: Bios, n: nat)
    requires Collecting(start, before, answers, seen, n)
    requires |seen'| == n + 1 && seen'[..n] == seen && Waiting(before, seen'[n], NormalisedAll(answers, n))
    requires OnlyHandoff(before, now) && RoundEffect(now, answers(n), NormalisedAll(answers, n))
    ensures forall k :: 0 <= k < n + 1 ==> WaitingAt(start, seen', answers, k)
    ensures OnlyHandoff(start, now)
    ensures Decide(answers(n), n) == More ==> Collecting(start, now, answers, seen', n + 1)
    ensures Decide(answers(n), n) != More ==> LastCall(answers, n)
    ensures Decide(answers(n), n) == Finished ==>
      exists m: nat :: Delivers(answers, m) && Collected(now, NormalisedAll(answers, m), 1)
    ensures Decide(answers(n), n) == Failed ==> Rejected(now) && forall m: nat :: !Delivers(answers, m)
  {
    NextCall(start, before, now, seen, seen', answers, n);
    NormalisedNext(answers, n);
    OutcomeDecides(answers, n);
  }

  lemma {:induction false} ContinuedNext(asked: seq<Query>, answers: Bios, n: nat)
    requires Continued(asked, answers, n)
    ensures Continued(asked + [QueryWith(TokenFor(answers, n))], answers, n + 1)
  {
  }

  /** One turn of the loop, seen from its start. */
  method CollectNext(low: array<u8>, bios: Firmware, ebx: u32, ghost start: Bytes) returns (outcome: Outcome, next: u32)
    requires low.Length >= LOW_MEMORY && bios.Valid()
    requires Collecting(start, low[..], bios.answers, bios.seen, bios.calls)
    requires Continued(bios.asked, bios.answers, bios.calls) && ebx == TokenFor(bios.answers, bios.calls)
    modifies low, bios
    ensures bios.Valid() && bios.calls == old(bios.calls) + 1
    ensures Continued(bios.asked, bios.answers, bios.calls) && next == TokenFor(bios.answers, bios.calls)
    ensures forall k :: 0 <= k < bios.calls ==> WaitingAt(start, bios.seen, bios.answers, k)
    ensures OnlyHandoff(start, low[..])
    ensures outcome == More ==> Collecting(start, low[..], bios.answers, bios.seen, bios.calls)
    ensures outcome != More ==> LastCall(bios.answers, bios.calls - 1)
    ensures outcome == Finished ==>
      exists n: nat :: Delivers(bios.answers, n) && Collected(low[..], NormalisedAll(bios.answers, n), 1)
    ensures outcome == Failed ==> Rejected(low[..]) && forall n: nat :: !Delivers(bios.answers, n)
  {
    ghost var before, n, seen := low[..], bios.calls, bios.seen;
    ContinuedNext(bios.asked, bios.answers, n);
    outcome, next := Round(low, bios, ebx, NormalisedAll(bios.answers, n));
    RoundDecides(start, before, low[..], seen, bios.seen, bios.answers, n);
  }

  /**
   The loop `_Get_Mem_Struct`. Whatever the BIOS answers: it is asked until the first answer that
   ends the loop and never again, so at most 33 times, first with token zero and then with the token of
   its last answer; nothing is written outside the two windows;
   the complete flag stands only over a table that holds exactly the delivered entries in order; and
   every single call returns into a memory that holds the entries so far without that flag.
   */
  method CollectMap(low: array<u8>, bios: Firmware) returns (ok: bool)
    requires low.Length >= LOW_MEMORY && bios.Valid() && bios.calls == 0
    modifies low, bios
    ensures bios.Valid() && 1 <= bios.calls <= MAX_ENTRIES + 1 && LastCall(bios.answers, bios.calls - 1)
    ensures Continued(bios.asked, bios.answers, bios.calls)
    ensures forall k :: 0 <= k < bios.calls ==> WaitingAt(old(low[..]), bios.seen, bios.answers, k)
    ensures OnlyHandoff(old(low[..]), low[..])
    ensures ok <==> exists n: nat :: Delivers(bios.answers, n)
    ensures ok ==> exists n: nat :: Delivers(bios.answers, n) && Collected(low[..], NormalisedAll(bios.answers, n), 1)
    ensures !ok ==> Rejected(low[..])
  {
    ghost var start := low[..];
    PrepareHeader(low);
    assert NormalisedAll(bios.answers, 0) == [];
    var ebx: u32 := 0;
    while true
      invariant bios.Valid() && Collecting(start, low[..], bios.answers, bios.seen, bios.calls)
      invariant Continued(bios.asked, bios.answers, bios.calls) && ebx == TokenFor(bios.answers, bios.calls)
      decreases MAX_ENTRIES - bios.calls
    {
      var outcome, next := CollectNext(low, bios, ebx, start);
      if outcome != More {
        return outcome == Finished;
      }
      ebx := next;
    }
  }

  // ---------- the kernel's side

  function EntriesAt(low: Bytes, count: nat): (entries: seq<Entry>)
    requires |low| >= LOW_MEMORY && count <= MAX_ENTRIES
    ensures |entries| == count
  {
    seq(count, k requires 0 <= k < count => EntryAt(low, k))
  }

  /** `read_memory_map`: header first, then the entries, then the fixed boot layout; None of the checks is skipped. */
  method ReadMemoryMap(low: Bytes) returns (r: Result<seq<Entry>, MapError>)
    requires |low| >= LOW_MEMORY
    ensures r.Ok? <==>
      Validate(HeaderAt(low)).Ok? && Acceptable(EntriesAt(low, Validate(HeaderAt(low)).value))
      && BootLayoutUsable(EntriesAt(low, Validate(HeaderAt(low)).value))
    ensures r.Ok? ==> r.value == EntriesAt(low, Validate(HeaderAt(low)).value) && 1 <= |r.value| <= MAX_ENTRIES
    ensures Validate(HeaderAt(low)).Err? ==> r == Err(Validate(HeaderAt(low)).error)
    ensures Validate(HeaderAt(low)).Ok? ==>
      var entries := EntriesAt(low, Validate(HeaderAt(low)).value);
      && (!Acceptable(entries) ==> r.Err? && FirstFault(entries, r.error))
      && (Acceptable(entries) && !BootLayoutUsable(entries) ==> r == Err(LayoutNotRam))
  {
    var header := Validate(HeaderAt(low));
    if header.Err? {
      return Err(header.error);
    }
    var count := header.value;
    var entries := [];
    for index := 0 to count
      invariant entries == EntriesAt(low, index)
    {
      entries := entries + [EntryAt(low, index)];
    }
    var valid := ValidateEntries(entries);
    if valid.Err? {
      return Err(valid.error);
    }
    for i := 0 to |BOOT_RANGES|
      invariant forall j :: 0 <= j < i ==> ContainsUsable(entries, BOOT_RANGES[j].0, BOOT_RANGES[j].1)
    {
      if !ContainsUsable(entries, BOOT_RANGES[i].0, BOOT_RANGES[i].1) {
        return Err(LayoutNotRam);
      }
    }
    return Ok(entries);
  }

  /** What the loader publishes is what the kernel reads: same entries, same order. */
  lemma {:induction false} PublishedIsRead(low: Bytes, bios: Bios, n: nat)
    requires Answers(bios) && Delivers(bios, n) && Collected(low, NormalisedAll(bios, n), 1)
    ensures Validate(HeaderAt(low)) == Ok(n)
    ensures EntriesAt(low, n) == NormalisedAll(bios, n)
  {
    FlagDecides(low, NormalisedAll(bios, n), 1);
    assert EntriesAt(low, n) == NormalisedAll(bios, n);
  }

  /** There is at most one map a BIOS delivers. */
  lemma {:induction false} DeliveryUnique(bios: Bios, m: nat, n: nat)
    requires Delivers(bios, m) && Delivers(bios, n)
    ensures m == n
  {
    if m < n {
      EachUsable(bios, n, m);
    }
    if n < m {
      EachUsable(bios, m, n);
    }
  }

  // ---------- answers and table, field by field

  /**
   What an answer is taken to mean. The address is always its own; a basic answer, or an extended one
   with attributes exactly 1, is taken as it is; a disabled one is empty; any further attribute makes it
   reserved.
   */
  lemma {:induction false} AnswerMeans(r: Response)
    requires |r.scratch| == 24 && Usable(r)
    ensures Normalised(r).address == Get64(r.scratch, 0)
    ensures r.ecx == 20 || Get32(r.scratch, 20) == 1 ==>
      Normalised(r).length == Get64(r.scratch, 8) && Normalised(r).kind == Get32(r.scratch, 16)
    ensures r.ecx == 24 ==>
      && (Normalised(r).length == 0 <==> Get32(r.scratch, 20) % 2 == 0 || Get64(r.scratch, 8) == 0)
      && (Normalised(r).length != 0 ==> Normalised(r).length == Get64(r.scratch, 8))
      && Normalised(r).kind == if Get32(r.scratch, 20) >= 2 then 2 else Get32(r.scratch, 16)
  {
  }

  /** The answer describes a range of RAM that holds this byte. */
  lemma {:induction false} RamAnswer(r: Response, byte: nat)
    requires |r.scratch| == 24 && Usable(r)
    ensures Normalised(r).address <= byte < Normalised(r).End() <==>
      (r.ecx == 20 || Get32(r.scratch, 20) % 2 == 1) &&
        Get64(r.scratch, 0) <= byte < Get64(r.scratch, 0) + Get64(r.scratch, 8)
    ensures Normalised(r).kind == 1 <==> Get32(r.scratch, 16) == 1 && (r.ecx == 20 || Get32(r.scratch, 20) < 2)
  {
  }

  /** What a delivered map is: 1 to 32 complete answers in a row that ask to be continued, and a proper end. */
  lemma {:induction false} DeliveryMeans(bios: Bios, n: nat)
    ensures Delivers(bios, n) <==>
      && 1 <= n <= 32
      && (forall k :: 0 <= k < n ==>
        !bios(k).carry && bios(k).eax == 0x534d_4150 && (bios(k).ecx == 20 || bios(k).ecx == 24))
      && (forall k :: 0 <= k < n - 1 ==> bios(k).ebx != 0)
      && (bios(n - 1).ebx == 0 || bios(n).carry)
  {
  }

  /** Where the table stands: a 16-byte header at 0x4ff0, entries of 20 bytes from 0x5000 on. */
  lemma {:induction false} TableMeans(low: Bytes, entries: seq<Entry>, flags: u32)
    requires |low| >= 0x6000
    ensures Collected(low, entries, flags) <==>
      && |entries| <= 32
      && Get32(low, 0x4ff0) == 0x3032_3845 && Get16(low, 0x4ff4) == 1 && Get16(low, 0x4ff6) == 20
      && Get16(low, 0x4ff8) == |entries| && Get16(low, 0x4ffa) == 32 && Get32(low, 0x4ffc) == flags
      && forall k :: 0 <= k < |entries| ==>
        entries[k] == Entry(Get64(low, 0x5000 + 20 * k), Get64(low, 0x5008 + 20 * k), Get32(low, 0x5010 + 20 * k))
  {
    forall k | 0 <= k < |entries| && |entries| <= 32
      ensures EntryAt(low, k) ==
        Entry(Get64(low, 0x5000 + 20 * k), Get64(low, 0x5008 + 20 * k), Get32(low, 0x5010 + 20 * k))
    {
    }
  }

  /** The registers and the buffer of each call. */
  lemma {:induction false} CallsMean(asked: seq<Query>, answers: Bios, n: nat, k: nat)
    requires Continued(asked, answers, n) && k < n
    ensures k < |asked| && asked[k].eax == 0xE820 && asked[k].ecx == 24 && asked[k].edx == 0x534d_4150
    ensures asked[k].ebx == if k == 0 then 0 else answers(k - 1).ebx
    ensures |asked[k].buffer| == 24 && forall i :: 0 <= i < 24 ==> asked[k].buffer[i] == if i == 20 then 1 else 0
  {
  }
}
