/**
 The boot loader's file loading: cylinder/head/sector reads, the sector-at-a-time table lookup,
 and the copy of each sector to memory above 1 MiB behind an A20 probe.
 */
module Loader {
  import opened Prelude
  import opened ByteMemory
  import opened Fat12
  import opened ImageBuilder
  import opened ImageChecker

  const SECTORS_PER_TRACK: nat := 18
  const KERNEL_BASE: nat := 0x10_0000
  const FILE_BUFFER: nat := 0x7E00       // one sector of the file
  const TABLE_BUFFER: nat := 0x8000      // two sectors of the table
  const PROBE_LOW: nat := 0x500
  const PROBE_HIGH: nat := 0x10_0500
  const FIRST_TABLE_SECTOR: nat := 1
  const FIRST_ROOT_SECTOR: nat := 19
  const ROOT_SECTORS: nat := 14
  const SECTOR_BALANCE: nat := 17
  const LAST_SECTOR: nat := 2879
  const QUOTIENTS: nat := 0x100          // an 8-bit division faults from here on

  // ---------- sector addressing

  datatype Chs = Chs(cylinder: u8, head: u8, sector: u8)

  /** The 8-bit division and shifts of `_ReadOneSectorFunc`; a larger sector number would overflow the quotient. */
  function Address(lba: nat): Chs
    requires lba < QUOTIENTS * SECTORS_PER_TRACK
  {
    var quotient := lba / SECTORS_PER_TRACK;
    Chs(quotient / 2, quotient % 2, lba % SECTORS_PER_TRACK + 1)
  }

  /** The sector a BIOS finds at an address. */
  function Sector(at: Chs): int {
    (2 * at.cylinder + at.head) * SECTORS_PER_TRACK + at.sector - 1
  }

  /** The address designates the sector it was computed from. */
  lemma {:induction false} AddressInverts(lba: nat)
    requires lba < QUOTIENTS * SECTORS_PER_TRACK
    ensures Sector(Address(lba)) == lba
    ensures var at := Address(lba); (at.cylinder * 2 + at.head) * 18 + (at.sector - 1) == lba
    ensures 1 <= Address(lba).sector <= SECTORS_PER_TRACK && Address(lba).head < 2
  {
    var quotient := lba / SECTORS_PER_TRACK;
    assert 2 * (quotient / 2) + quotient % 2 == quotient;
  }

  // ---------- chains the loader follows

  lemma {:induction false} ChainLinks(fat: Bytes, cluster: nat, chain: seq<nat>)
    requires |fat| == FAT_SIZE && Chain(fat, cluster, chain)
    ensures forall i :: 0 <= i < |chain| ==>
      DataCluster(chain[i]) && (i < |chain| - 1 ==> FatEntry(fat, chain[i]) == chain[i + 1])
    decreases |chain|
  {
    if chain != [] {
      var rest := chain[1..];
      ChainLinks(fat, FatEntry(fat, cluster), rest);
      forall i | 0 <= i < |chain|
        ensures DataCluster(chain[i])
        ensures i < |chain| - 1 ==> FatEntry(fat, chain[i]) == chain[i + 1]
      {
        if i > 0 { assert chain[i] == rest[i - 1]; }
        if i < |chain| - 1 { assert chain[i + 1] == rest[i]; }
      }
    }
  }

  /** The end mark behind a chain. */
  lemma {:induction false} ChainEnds(fat: Bytes, cluster: nat, chain: seq<nat>)
    requires |fat| == FAT_SIZE && chain != [] && Chain(fat, cluster, chain)
    ensures chain[0] == cluster && DataCluster(chain[|chain| - 1])
    ensures FatEntry(fat, chain[|chain| - 1]) >= 0xFF8
    decreases |chain|
  {
    var next, rest := FatEntry(fat, cluster), chain[1..];
    if rest == [] {
      assert chain == [cluster];
    } else {
      ChainEnds(fat, next, rest);
    }
  }

  /** What ends a chain: the entry of its last cluster, or the first cluster field itself where the chain is empty. */
  ghost function EndMark(fat: Bytes, cluster: u16, chain: seq<nat>): (mark: u16)
    requires |fat| == FAT_SIZE && Chain(fat, cluster, chain)
    ensures mark >= 0xFF8
    ensures chain != [] ==> mark < 0x1000
  {
    if chain == [] then cluster else
      ChainEnds(fat, cluster, chain);
      FatEntry(fat, chain[|chain| - 1])
  }

  /** The sector the loader computes for a cluster, in 16 bits. */
  function SectorOf(cluster: u16): u16 {
    (cluster + ROOT_SECTORS + SECTOR_BALANCE) % 0x1_0000
  }

  /**
   How loading ends: the file is there, the A20 probe fails, a sector is asked for that the disk does
   not have, or a division of the address or table arithmetic overflows its quotient.
   */
  datatype Outcome = Loaded | LineClosed | BeyondDisk(sector: nat) | DivideError

  /** The loop takes an end mark for a cluster. From 0xFFE1 on the sector number wraps around to one the disk has. */
  function TakenForCluster(a20: bool, mark: u16): Outcome {
    var sector := SectorOf(mark);
    if sector >= QUOTIENTS * SECTORS_PER_TRACK then DivideError
    else if sector > LAST_SECTOR then BeyondDisk(sector)
    else if a20 then DivideError
    else LineClosed
  }

  /** The loader reads before it tests, and stops on 0xFFF alone. */
  function OutcomeOf(a20: bool, empty: bool, mark: u16): Outcome {
    if empty then TakenForCluster(a20, mark)
    else if !a20 then LineClosed
    else if mark == END_OF_CHAIN then Loaded
    else TakenForCluster(a20, mark)
  }

  /** Where loading goes wrong: on an empty chain at once, otherwise behind the last cluster at sector 4119 or later. */
  lemma {:induction false} OutcomesOf(a20: bool, empty: bool, mark: u16)
    requires mark >= 0xFF8 && (!empty ==> mark < 0x1000)
    ensures OutcomeOf(a20, empty, mark).Loaded? <==> a20 && !empty && mark == 0xFFF
    ensures OutcomeOf(a20, empty, mark).LineClosed? <==> !a20 && (!empty || mark >= 0xFFE1)
    ensures OutcomeOf(a20, empty, mark).DivideError? <==> empty && (if mark < 0xFFE1 then mark >= 0x11E1 else a20)
    ensures OutcomeOf(a20, empty, mark).BeyondDisk? <==> if empty then mark < 0x11E1 else a20 && mark != 0xFFF
    ensures OutcomeOf(a20, empty, mark).BeyondDisk? ==>
      OutcomeOf(a20, empty, mark).sector == mark + 31 >= 4119 > LAST_SECTOR
  {
  }

  // ---------- the machine

  predicate OnlyWithin(before: Bytes, after: Bytes, lo: nat, hi: nat)
    requires lo <= hi <= |before|
  {
    |after| == |before| && after[..lo] == before[..lo] && after[hi..] == before[hi..]
  }

  /** The two sectors read hold the wanted byte pair, even when it lies across their boundary. */
  lemma {:induction false} StraddledPair(image: Bytes, before: Bytes, offset: nat)
    requires |image| == IMAGE_SIZE && offset + 1 < FAT_SIZE && |before| >= KERNEL_BASE
    ensures var sector, within := offset / SECTOR, offset % SECTOR;
      var after := Overwrite(before, TABLE_BUFFER, image[(sector + 1) * SECTOR..(sector + 3) * SECTOR]);
      && after[TABLE_BUFFER + within] == Fat(image)[offset]
      && after[TABLE_BUFFER + within + 1] == Fat(image)[offset + 1]
      && OnlyWithin(before, after, TABLE_BUFFER, TABLE_BUFFER + 2 * SECTOR)
  {
    var sector, within := offset / SECTOR, offset % SECTOR;
    var bytes := image[(sector + 1) * SECTOR..(sector + 3) * SECTOR];
    var after := Overwrite(before, TABLE_BUFFER, bytes);
    assert sector * SECTOR + within == offset;
    assert |bytes| == 2 * SECTOR;
    assert after[TABLE_BUFFER + within] == bytes[within] && after[TABLE_BUFFER + within + 1] == bytes[within + 1];
    assert bytes[within] == image[SECTOR + offset] && bytes[within + 1] == image[SECTOR + offset + 1];
  }

  lemma {:induction false} TripleParity(cluster: nat)
    ensures cluster * 3 % 2 == cluster % 2
  {
    OffsetOf(cluster);
  }

  lemma {:induction false} EntryFromPair(fat: Bytes, cluster: nat, pair: u16)
    requires InTable(fat, cluster)
    requires pair == Word(fat[cluster * 3 / 2], fat[cluster * 3 / 2 + 1])
    ensures (if cluster * 3 % 2 == 1 then pair / 0x10 else pair) % 0x1000 == FatEntry(fat, cluster)
  {
    TripleParity(cluster);
    LookupIsEntry(fat, cluster);
  }

  /** Only the two low buffers and the loaded part of the kernel area may differ. */
  predicate Framed(before: Bytes, after: Bytes, end: nat) {
    && |after| == |before|
    && forall k :: 0 <= k < |before| ==>
         FILE_BUFFER <= k < TABLE_BUFFER + 2 * SECTOR || KERNEL_BASE <= k < end || after[k] == before[k]
  }

  lemma {:induction false} WithinTable(before: Bytes, after: Bytes)
    requires |before| >= KERNEL_BASE && OnlyWithin(before, after, TABLE_BUFFER, TABLE_BUFFER + 2 * SECTOR)
    ensures forall k :: 0 <= k < |before| && !(TABLE_BUFFER <= k < TABLE_BUFFER + 2 * SECTOR) ==> after[k] == before[k]
  {
    forall k | 0 <= k < |before| && !(TABLE_BUFFER <= k < TABLE_BUFFER + 2 * SECTOR)
      ensures after[k] == before[k]
    {
      if k < TABLE_BUFFER {
        assert after[k] == after[..TABLE_BUFFER][k];
      } else {
        assert after[k] == after[TABLE_BUFFER + 2 * SECTOR..][k - (TABLE_BUFFER + 2 * SECTOR)];
      }
    }
  }

  lemma {:induction false} PrefixOfSlice(s: Bytes, prefix: Bytes)
    requires prefix <= s
    ensures s[..|prefix|] == prefix
  {
  }

  /** Every file of a finished image is loadable from its directory entry, and its chain yields its bytes. */
  lemma {:induction false} FinishedLoads(image: Bytes, boot: Bytes, files: seq<File>, index: nat)
    requires index < |files| <= ROOT_ENTRIES && Buildable(files) && Finished(image, boot, files)
    ensures Start(files, index) <= Start(files, index + 1)
    ensures var chain := Range(Start(files, index), Start(files, index + 1));
      && |chain| == Clusters(|files[index].content|) > 0
      && Chain(Fat(image), FirstCluster(Directory(image, index)), chain)
      && EndMark(Fat(image), FirstCluster(Directory(image, index)), chain) == END_OF_CHAIN
      && (forall i :: 0 <= i < |chain| ==> DataCluster(chain[i]))
      && files[index].content <= ChainBytes(image, chain)
  {
    assert PlacedAt(image, Fat(image), files, index);
    var start, n := Start(files, index), Clusters(|files[index].content|);
    FileReadsBack(image, files[index], index, start);
    var chain := Range(start, start + n);
    ChainLinks(Fat(image), start, chain);
    assert FatEntry(Fat(image), start + n - 1) == LinkOf(start + n - 1, start + n);
  }

  /** A file of an accepted image is held by a chain, which is empty exactly if the file is. */
  lemma {:induction false} AcceptedChain(image: Bytes, files: seq<File>, index: nat) returns (chain: seq<nat>)
    requires |files| <= ROOT_ENTRIES && HeaderOk(image) && FilesOk(image, files, 0, {}) && index < |files|
    ensures Chain(Fat(image), FirstCluster(Directory(image, index)), chain)
    ensures HoldsFile(image, files[index], chain)
    ensures chain == [] <==> files[index].content == []
  {
    var chains := AcceptedHasLayout(image, files, 0, {});
    LayoutAt(image, files, 0, chains, {}, index);
    chain := chains[index];
  }

  function SectorBytes(image: Bytes, sector: nat): (bytes: Bytes)
    requires |image| == IMAGE_SIZE && sector <= LAST_SECTOR
    ensures |bytes| == SECTOR
  {
    image[sector * SECTOR..(sector + 1) * SECTOR]
  }

  predicate IsNamed(image: Bytes, index: nat)
    requires |image| == IMAGE_SIZE && index < ROOT_ENTRIES
  {
    Directory(image, index)[..11] == KERNEL_NAME
  }

  predicate NoneNamed(image: Bytes, from: nat, end: nat)
    requires |image| == IMAGE_SIZE && end <= ROOT_ENTRIES
  {
    forall i :: from <= i < end ==> !IsNamed(image, i)
  }

  /** A sector of the root directory. */
  function RootSector(image: Bytes, sector: nat): (bytes: Bytes)
    requires |image| == IMAGE_SIZE && sector < ROOT_SECTORS
    ensures |bytes| == SECTOR
  {
    SectorBytes(image, sector + FIRST_ROOT_SECTOR)
  }

  lemma {:induction false} EntryInSector(image: Bytes, sector: nat, entry: nat)
    requires |image| == IMAGE_SIZE && sector < ROOT_SECTORS && entry < 16
    ensures RootSector(image, sector)[entry * 32..entry * 32 + 32] == Directory(image, 16 * sector + entry)
  {
    SliceOfSlice(image, (sector + FIRST_ROOT_SECTOR) * SECTOR, SECTOR, entry * 32, 32);
  }

  class Machine {
    const memory: array<u8>
    const a20: bool            // whether address line 20 is really open
    var destination: nat       // OffsetOfKernelFileCount

    ghost predicate Valid()
      reads this
    {
      memory.Length > PROBE_HIGH && KERNEL_BASE <= destination
    }

    /** Which byte an address reaches: with the line closed, bit 20 reads as zero. */
    function Physical(address: nat): (p: nat)
      ensures p <= address
      ensures a20 ==> p == address
    {
      if a20 then address else address / 0x20_0000 * 0x20_0000 + address % 0x10_0000
    }

    /** INT 13h, AH=2: the sectors of one track, into low memory. */
    method BiosRead(image: Bytes, at: Chs, count: nat, to: nat)
      requires |image| == IMAGE_SIZE && at.sector >= 1
      requires at.sector - 1 + count <= SECTORS_PER_TRACK && (Sector(at) + count) * SECTOR <= IMAGE_SIZE
      requires to + count * SECTOR <= memory.Length
      modifies memory
      ensures memory[..] == Overwrite(old(memory[..]), to, image[Sector(at) * SECTOR..(Sector(at) + count) * SECTOR])
    {
      var from := Sector(at) * SECTOR;
      var bytes := image[from..(Sector(at) + count) * SECTOR];
      forall k | 0 <= k < |bytes| {
        memory[to + k] := bytes[k];
      }
    }

    /** `_ReadOneSectorFunc`: AX is the sector number, CL the count, BX the buffer. */
    method ReadSectors(image: Bytes, ax: nat, cl: nat, bx: nat)
      requires |image| == IMAGE_SIZE && (ax + cl) * SECTOR <= IMAGE_SIZE
      requires ax % SECTORS_PER_TRACK + cl <= SECTORS_PER_TRACK
      requires bx + cl * SECTOR <= memory.Length
      modifies memory
      ensures memory[..] == Overwrite(old(memory[..]), bx, image[ax * SECTOR..(ax + cl) * SECTOR])
    {
      AddressInverts(ax);
      var al, ah := ax / SECTORS_PER_TRACK, ax % SECTORS_PER_TRACK;
      BiosRead(image, Chs(al / 2, al % 2, ah + 1), cl, bx);
    }

    /**
     `_GetFATEntryFunc`: two sectors of the table are enough, even for an entry that straddles them.
     None: the byte offset does not fit the quotient of the 16-bit division.
     */
    method GetFatEntry(image: Bytes, ax: u16) returns (link: Option<u16>)
      requires |image| == IMAGE_SIZE && memory.Length >= KERNEL_BASE
      requires DataCluster(ax) || ax * 3 / 2 >= 0x1_0000
      modifies memory
      ensures link == if DataCluster(ax) then Some(FatEntry(Fat(image), ax)) else None
      ensures OnlyWithin(old(memory[..]), memory[..], TABLE_BUFFER, TABLE_BUFFER + 2 * SECTOR)
    {
      var product := ax * 3;
      var offset, odd := product / 2, product % 2;
      if offset >= 0x1_0000 {
        return None;
      }
      var sector, within := offset / SECTOR, offset % SECTOR;
      ghost var before := memory[..];
      ReadSectors(image, sector + FIRST_TABLE_SECTOR, 2, TABLE_BUFFER);
      StraddledPair(image, before, offset);
      var pair := Word(memory[TABLE_BUFFER + within], memory[TABLE_BUFFER + within + 1]);
      pair := if odd == 1 then pair / 0x10 else pair;
      EntryFromPair(Fat(image), ax, Word(memory[TABLE_BUFFER + within], memory[TABLE_BUFFER + within + 1]));
      return Some(pair % 0x1000);
    }

    /** `_Cmp_FileName`: eleven bytes, the first difference decides. */
    method IsKernelName(at: nat) returns (same: bool)
      requires at + 11 <= memory.Length
      ensures same <==> memory[at..at + 11] == KERNEL_NAME
    {
      for j := 0 to 11
        invariant memory[at..at + j] == KERNEL_NAME[..j]
      {
        if memory[at + j] != KERNEL_NAME[j] {
          assert memory[at..at + 11][j] == memory[at + j];
          return false;
        }
      }
      return true;
    }

    method ReadRootSector(image: Bytes, sector: nat)
      requires |image| == IMAGE_SIZE && sector < ROOT_SECTORS && memory.Length >= KERNEL_BASE
      modifies memory
      ensures Framed(old(memory[..]), memory[..], KERNEL_BASE)
      ensures memory[TABLE_BUFFER..TABLE_BUFFER + SECTOR] == RootSector(image, sector)
    {
      ReadSectors(image, sector + FIRST_ROOT_SECTOR, 1, TABLE_BUFFER);
    }

    /** The name of one entry of the directory sector in the buffer. */
    method CheckEntry(entry: nat, ghost image: Bytes, ghost sector: nat) returns (same: bool)
      requires |image| == IMAGE_SIZE && sector < ROOT_SECTORS && entry < 16 && memory.Length >= KERNEL_BASE
      requires memory[TABLE_BUFFER..TABLE_BUFFER + SECTOR] == RootSector(image, sector)
      ensures same == IsNamed(image, 16 * sector + entry)
      ensures var at := TABLE_BUFFER + entry * 32; memory[at..at + 32] == Directory(image, 16 * sector + entry)
    {
      var at := TABLE_BUFFER + entry * 32;
      SliceOfSlice(memory[..], TABLE_BUFFER, SECTOR, entry * 32, 32);
      assert memory[at..at + 32] == memory[TABLE_BUFFER..TABLE_BUFFER + SECTOR][entry * 32..entry * 32 + 32];
      EntryInSector(image, sector, entry);
      assert memory[at..at + 11] == memory[at..at + 32][..11];
      same := IsKernelName(at);
    }

    /** `_Search_For_KernelBin`: the sixteen entries of one sector of the root directory. */
    method SearchSector(image: Bytes, sector: nat) returns (found: Option<nat>)
      requires |image| == IMAGE_SIZE && sector < ROOT_SECTORS && memory.Length >= KERNEL_BASE
      modifies memory
      ensures Framed(old(memory[..]), memory[..], KERNEL_BASE)
      ensures found.None? ==> NoneNamed(image, 16 * sector, 16 * sector + 16)
      ensures found.Some? ==> found.value < 16 && IsNamed(image, 16 * sector + found.value)
      ensures found.Some? ==> NoneNamed(image, 16 * sector, 16 * sector + found.value)
      ensures found.Some? ==> var at := TABLE_BUFFER + found.value * 32;
        memory[at..at + 32] == Directory(image, 16 * sector + found.value)
    {
      ReadRootSector(image, sector);
      ghost var now := memory[..];
      for entry := 0 to 16
        invariant memory[..] == now
        invariant memory[TABLE_BUFFER..TABLE_BUFFER + SECTOR] == RootSector(image, sector)
        invariant NoneNamed(image, 16 * sector, 16 * sector + entry)
      {
        var same := CheckEntry(entry, image, sector);
        if same {
          return Some(entry);
        }
      }
      return None;
    }

    /**
     `_Search_In_Root_Dir_Begin`: the fourteen sectors of the root directory. It finds the first entry
     with the kernel's name if there is one, and its first cluster.
     */
    method FindKernel(image: Bytes) returns (first: Option<u16>, ghost index: nat)
      requires |image| == IMAGE_SIZE && memory.Length >= KERNEL_BASE
      modifies memory
      ensures Framed(old(memory[..]), memory[..], KERNEL_BASE)
      ensures first.None? ==> NoneNamed(image, 0, ROOT_ENTRIES)
      ensures first.Some? ==> index < ROOT_ENTRIES && IsNamed(image, index) && NoneNamed(image, 0, index)
      ensures first.Some? ==> first.value == FirstCluster(Directory(image, index))
    {
      for sector := 0 to ROOT_SECTORS
        invariant Framed(old(memory[..]), memory[..], KERNEL_BASE)
        invariant NoneNamed(image, 0, 16 * sector)
      {
        var found := SearchSector(image, sector);
        if found.Some? {
          var at := TABLE_BUFFER + found.value * 32;
          ghost var entry := Directory(image, 16 * sector + found.value);
          assert entry[26] == memory[at..at + 32][26] && entry[27] == memory[at..at + 32][27];
          TwoBytes(entry[26..28]);
          return Some(Word(memory[at + 26], memory[at + 27])), 16 * sector + found.value;
        }
      }
      return None, 0;
    }

    /** Different values are written to 0x500 and 0x100500 and the first is read back; both bytes are then restored. */
    method ProbeA20() returns (open: bool)
      requires Valid()
      modifies memory
      ensures open == a20 && memory[..] == old(memory[..])
    {
      var bl, bh := memory[PROBE_LOW], memory[Physical(PROBE_HIGH)];
      memory[PROBE_LOW] := 0;
      memory[Physical(PROBE_HIGH)] := 0xFF;
      var dl := memory[PROBE_LOW];
      memory[Physical(PROBE_HIGH)] := bh;
      memory[PROBE_LOW] := bl;
      return dl == 0;
    }

    /** `rep movsb`, with the 32-bit destination running on from sector to sector. */
    method CopyUp()
      requires Valid() && destination + SECTOR <= memory.Length
      modifies memory, `destination
      ensures destination == old(destination) + SECTOR
      ensures memory[..] == Overwrite(old(memory[..]), old(destination), old(memory[FILE_BUFFER..FILE_BUFFER + SECTOR]))
    {
      var esi, edi := FILE_BUFFER, destination;
      for ecx := 0 to SECTOR
        invariant esi == FILE_BUFFER + ecx && edi == destination + ecx && destination == old(destination)
        invariant forall k :: 0 <= k < memory.Length ==>
          memory[k] == if destination <= k < edi then old(memory[FILE_BUFFER + (k - destination)]) else old(memory[k])
      {
        memory[edi] := memory[esi];
        esi, edi := esi + 1, edi + 1;
      }
      destination := edi;
    }

    /**
     `_CopyKernelSector`: the probe succeeds exactly when the line is open, both probed bytes are
     put back, and only then is the sector copied and the counter advanced.
     */
    method CopyKernelSector() returns (ok: bool)
      requires Valid() && destination + SECTOR <= memory.Length
      modifies memory, `destination
      ensures ok == a20
      ensures ok ==> destination == old(destination) + SECTOR
      ensures ok ==>
        memory[..] == Overwrite(old(memory[..]), old(destination), old(memory[FILE_BUFFER..FILE_BUFFER + SECTOR]))
      ensures !ok ==> destination == old(destination) && memory[..] == old(memory[..])
    {
      var open := ProbeA20();
      if !open {
        return false;
      }
      CopyUp();
      return true;
    }

    method CopySector(image: Bytes, ax: nat) returns (ok: bool)
      requires Valid() && destination + SECTOR <= memory.Length
      requires |image| == IMAGE_SIZE && ax <= LAST_SECTOR
      modifies memory, `destination
      ensures ok == a20 && destination == old(destination) + if ok then SECTOR else 0
      ensures ok ==> memory[KERNEL_BASE..destination] == old(memory[KERNEL_BASE..destination]) + SectorBytes(image, ax)
      ensures Framed(old(memory[..]), memory[..], destination)
    {
      ReadSectors(image, ax, 1, FILE_BUFFER);
      ghost var bytes := SectorBytes(image, ax);
      assert memory[FILE_BUFFER..FILE_BUFFER + SECTOR] == memory[..][FILE_BUFFER..FILE_BUFFER + SECTOR] == bytes;
      ok := CopyKernelSector();
    }

    /**
     One round of the loop: a sector of the file goes to its place above 1 MiB, and the next link is
     looked up. The sector exists, but it need not be a cluster's: its number may have wrapped around.
     */
    method LoadCluster(image: Bytes, cluster: u16) returns (ok: bool, link: Option<u16>)
      requires Valid() && destination + SECTOR <= memory.Length
      requires |image| == IMAGE_SIZE && cluster >= 2 && SectorOf(cluster) <= LAST_SECTOR
      modifies memory, `destination
      ensures ok == a20 && destination == old(destination) + if ok then SECTOR else 0
      ensures ok ==> link == if DataCluster(cluster) then Some(FatEntry(Fat(image), cluster)) else None
      ensures ok ==> var bytes := SectorBytes(image, SectorOf(cluster));
        memory[KERNEL_BASE..destination] == old(memory[KERNEL_BASE..destination]) + bytes
      ensures Framed(old(memory[..]), memory[..], destination)
    {
      var ax := SectorOf(cluster);
      ok := CopySector(image, ax);
      link := None;
      if ok {
        ghost var copied := memory[..];
        link := GetFatEntry(image, cluster);
        WithinTable(copied, memory[..]);
      }
    }

    /**
     The loop `_Go_On_Loading_File`: read a sector, copy it up, look up the next cluster, stop at 0xFFF.
     It is started on any chain that the image checker accepts, the empty one included. A read beyond the
     last sector cannot succeed, and the loader would repeat it for ever; here it ends the loop, as a
     divide error does.
     */
    method LoadFile(image: Bytes, first: u16, ghost chain: seq<nat>) returns (r: Outcome)
      requires Valid() && destination == KERNEL_BASE
      requires |image| == IMAGE_SIZE && Chain(Fat(image), first, chain)
      requires KERNEL_BASE + |chain| * SECTOR <= memory.Length
      modifies memory, `destination
      ensures r == OutcomeOf(a20, chain == [], EndMark(Fat(image), first, chain))
      ensures r.Loaded? <==> a20 && chain != [] && EndMark(Fat(image), first, chain) == 0xFFF
      ensures (forall i :: 0 <= i < |chain| ==> DataCluster(chain[i]))
      ensures r.Loaded? || r.BeyondDisk? ==> destination == KERNEL_BASE + |chain| * SECTOR
      ensures r.Loaded? || r.BeyondDisk? ==> memory[KERNEL_BASE..destination] == ChainBytes(image, chain)
      ensures chain == [] && a20 && SectorOf(first) <= LAST_SECTOR ==>
        destination == KERNEL_BASE + SECTOR && memory[KERNEL_BASE..destination] == SectorBytes(image, SectorOf(first))
      ensures Framed(old(memory[..]), memory[..], destination)
    {
      ghost var mark := EndMark(Fat(image), first, chain);
      OutcomesOf(a20, chain == [], mark);
      ChainLinks(Fat(image), first, chain);
      var cluster := first;
      ghost var k := 0;
      while true
        invariant k <= |chain| && cluster == (if k < |chain| then chain[k] else mark)
        invariant k == |chain| > 0 ==> a20 && cluster != END_OF_CHAIN
        invariant destination == KERNEL_BASE + k * SECTOR
        invariant memory[KERNEL_BASE..destination] == ChainBytes(image, chain[..k])
        invariant Framed(old(memory[..]), memory[..], destination)
        decreases |chain| - k
      {
        var sector := SectorOf(cluster);
        assert k == |chain| ==> chain[..k] == chain;
        if sector >= QUOTIENTS * SECTORS_PER_TRACK {
          return DivideError;
        }
        if sector > LAST_SECTOR {
          return BeyondDisk(sector);
        }
        assert k < |chain| ==> chain[..k + 1][..k] == chain[..k];
        assert DataCluster(cluster) ==> SectorBytes(image, sector) == ClusterBytes(image, cluster);
        var ok, link := LoadCluster(image, cluster);
        if !ok {
          return LineClosed;
        }
        if link.None? {
          return DivideError;
        }
        assert k < |chain| - 1 ==> link.value == chain[k + 1];
        k := k + 1;
        if link.value == 0xFFF {
          assert k == |chain| && chain[..k] == chain;
          return Loaded;
        }
        cluster := link.value;
      }
    }

    /**
     `_FileName_Found` onwards, on any image the checker passes: memory from 1 MiB on begins with the
     file if and only if the address line is open, the file is not empty and its chain ends in 0xFFF.
     */
    method LoadAccepted(image: Bytes, first: u16, ghost files: seq<File>, ghost index: nat)
      returns (r: Outcome, ghost chain: seq<nat>)
      requires Valid() && destination == KERNEL_BASE
      requires |files| <= ROOT_ENTRIES && HeaderOk(image) && FilesOk(image, files, 0, {})
      requires index < |files| && first == FirstCluster(Directory(image, index))
      requires KERNEL_BASE + Clusters(|files[index].content|) * SECTOR <= memory.Length
      modifies memory, `destination
      ensures Chain(Fat(image), first, chain) && |chain| == Clusters(|files[index].content|)
      ensures r == OutcomeOf(a20, files[index].content == [], EndMark(Fat(image), first, chain))
      ensures r.Loaded? <==> a20 && files[index].content != [] && EndMark(Fat(image), first, chain) == 0xFFF
      ensures r.Loaded? ==> destination == KERNEL_BASE + |chain| * SECTOR
      ensures r.Loaded? ==> memory[KERNEL_BASE..KERNEL_BASE + |files[index].content|] == files[index].content
      ensures Framed(old(memory[..]), memory[..], destination)
    {
      chain := AcceptedChain(image, files, index);
      r := LoadFile(image, first, chain);
      if r.Loaded? {
        PrefixOfSlice(memory[KERNEL_BASE..destination], files[index].content);
        assert memory[KERNEL_BASE..KERNEL_BASE + |files[index].content|]
            == memory[KERNEL_BASE..destination][..|files[index].content|];
      }
    }

    /**
     On an image the builder finished: with the address line open, memory from 1 MiB on begins with the
     file that was given to the builder, whole sectors are counted, and nothing outside the buffers and
     the loaded sectors has changed.
     */
    method LoadFound(image: Bytes, first: u16, ghost boot: Bytes, ghost files: seq<File>, ghost index: nat)
      returns (ok: bool)
      requires Valid() && destination == KERNEL_BASE
      requires BootOk(boot) && index < |files| <= ROOT_ENTRIES && Buildable(files) && Finished(image, boot, files)
      requires first == FirstCluster(Directory(image, index))
      requires KERNEL_BASE + Clusters(|files[index].content|) * SECTOR <= memory.Length
      modifies memory, `destination
      ensures ok == a20
      ensures ok ==> destination == KERNEL_BASE + Clusters(|files[index].content|) * SECTOR
      ensures ok ==> memory[KERNEL_BASE..KERNEL_BASE + |files[index].content|] == files[index].content
      ensures Framed(old(memory[..]), memory[..], destination)
    {
      FinishedIsAccepted(image, boot, files);
      FinishedLoads(image, boot, files, index);
      var r, chain := LoadAccepted(image, first, files, index);
      ChainUnique(Fat(image), first, chain, Range(Start(files, index), Start(files, index + 1)));
      return r.Loaded?;
    }

    /**
     From the root directory on, on the floppy the builder makes of a loader and a kernel: the kernel's
     entry is found, and memory at 1 MiB begins with the kernel if and only if the address line is open.
     */
    method LoadKernel(image: Bytes, ghost boot: Bytes, ghost loader: Bytes, ghost kernel: Bytes) returns (ok: bool)
      requires Valid() && destination == KERNEL_BASE && KERNEL_BASE + Clusters(|kernel|) * SECTOR <= memory.Length
      requires var files := [File(LOADER_NAME, loader), File(KERNEL_NAME, kernel)];
        BootOk(boot) && Buildable(files) && Finished(image, boot, files)
      modifies memory, `destination
      ensures ok == a20
      ensures ok ==> destination == KERNEL_BASE + Clusters(|kernel|) * SECTOR
      ensures ok ==> memory[0x10_0000..0x10_0000 + |kernel|] == kernel
      ensures Framed(old(memory[..]), memory[..], destination)
    {
      ghost var files := [File(LOADER_NAME, loader), File(KERNEL_NAME, kernel)];
      assert PlacedAt(image, Fat(image), files, 0) && PlacedAt(image, Fat(image), files, 1);
      var first, index := FindKernel(image);
      assert LOADER_NAME[0] != KERNEL_NAME[0];
      assert IsNamed(image, 1) && !IsNamed(image, 0);
      assert files[1].content == kernel;
      ok := LoadFound(image, first.value, boot, files, index);
    }
  }

  // ---------- what loader and image have in common

  /** The numbers built into the loader are those of the boot sector's parameter block. */
  lemma {:induction false} LoaderGeometry(boot: Bytes)
    requires |boot| == SECTOR && ParametersOk(boot)
    ensures SECTORS_PER_TRACK == Get16(boot, 24) && LAST_SECTOR == Get16(boot, 19) - 1
    ensures FIRST_TABLE_SECTOR == Get16(boot, 14)
    ensures FIRST_ROOT_SECTOR == Get16(boot, 14) + boot[16] * Get16(boot, 22)
    ensures ROOT_SECTORS * SECTOR == 32 * Get16(boot, 17)
    ensures 2 + ROOT_SECTORS + SECTOR_BALANCE == FIRST_ROOT_SECTOR + ROOT_SECTORS == DATA / SECTOR
  {
    ParametersMean(boot);
  }

  /** The names in directory form: eight characters, padded, and the extension. */
  lemma {:induction false} NamesSpelled(i: nat)
    requires i < 11
    ensures |KERNEL_NAME| == |LOADER_NAME| == 11
    ensures KERNEL_NAME[i] as char == "KERNEL  BIN"[i] && LOADER_NAME[i] as char == "LOADER  BIN"[i]
  {
  }

  // ---------- accepted images that do not load

  /**
   One byte of an image holding one file, made of zeros: its directory entry gives `first` and `size`,
   and table entry 2 is 0xFF8.
   */
  function SmallByte(first: u16, size: u8, i: nat): u8 {
    if i == 510 then 0x55
    else if i == 511 then 0xAA
    else if i == SECTOR + 3 || i == SECTOR + FAT_SIZE + 3 then 0xF8
    else if i == SECTOR + 4 || i == SECTOR + FAT_SIZE + 4 then 0x0F
    else if ROOT <= i < ROOT + 11 then KERNEL_NAME[i - ROOT]
    else if i == ROOT + 26 then first % 0x100
    else if i == ROOT + 27 then first / 0x100
    else if i == ROOT + 28 then size
    else 0
  }

  function SmallImage(first: u16, size: u8): (image: Bytes)
    ensures |image| == IMAGE_SIZE
  {
    seq(IMAGE_SIZE, i requires 0 <= i < IMAGE_SIZE => SmallByte(first, size, i))
  }

  lemma {:induction false} SmallEntry(first: u16, size: u8)
    ensures var entry := Directory(SmallImage(first, size), 0);
      entry[..11] == KERNEL_NAME && FirstCluster(entry) == first && FileSize(entry) == size
  {
    var entry := Directory(SmallImage(first, size), 0);
    assert forall k :: 0 <= k < 32 ==> entry[k] == SmallByte(first, size, ROOT + k);
    assert forall k :: 0 <= k < 11 ==> entry[..11][k] == KERNEL_NAME[k];
    TwoBytes(entry[26..28]);
    FourBytes(entry[28..32]);
  }

  lemma {:induction false} SmallTables(first: u16, size: u8)
    ensures HeaderOk(SmallImage(first, size)) && FatEntry(Fat(SmallImage(first, size)), 2) == 0xFF8
    ensures Chain(Fat(SmallImage(first, size)), 2, [2])
  {
    var fat := Fat(SmallImage(first, size));
    assert fat[3] == 0xF8 && fat[4] == 0x0F;
    LookupIsEntry(fat, 2);
    assert Chain(fat, 0xFF8, []) && [2][1..] == [];
  }

  lemma {:induction false} SmallContent(first: u16, size: u8)
    ensures |ChainBytes(SmallImage(first, size), [2])| == SECTOR && ChainBytes(SmallImage(first, size), [2])[0] == 0
  {
    assert [2][..0] == [];
    assert ChainBytes(SmallImage(first, size), [2]) == ClusterBytes(SmallImage(first, size), 2);
  }

  /**
   One zero byte, end mark 0xFF8: the checker passes it, and the loader, having read the file, goes on to
   sector 4119 of 2880.
   */
  lemma {:induction false} AcceptedButNotLoaded()
    ensures HeaderOk(SmallImage(2, 1)) && FilesOk(SmallImage(2, 1), [File(KERNEL_NAME, [0])], 0, {})
    ensures Chain(Fat(SmallImage(2, 1)), FirstCluster(Directory(SmallImage(2, 1), 0)), [2])
    ensures OutcomeOf(true, false, EndMark(Fat(SmallImage(2, 1)), 2, [2])) == BeyondDisk(4119)
  {
    var image, file := SmallImage(2, 1), File(KERNEL_NAME, [0]);
    SmallEntry(2, 1);
    SmallTables(2, 1);
    SmallContent(2, 1);
    FollowIsChain(Fat(image), 2, {}, [2]);
    FilesOkEnd(image, [file], {} + Elements([2]));
  }

  /**
   An empty file: the checker passes it with any end mark as its first cluster, 0xFFF included, and the
   loader never loads it. It asks for sector 4126 at 0xFFF, divides by overflow at 0x11E1, and at 0xFFE1
   reads the boot sector, then faults at the table lookup.
   */
  lemma {:induction false} EmptyFileNotLoaded(first: u16, a20: bool)
    requires first >= 0xFF8
    ensures HeaderOk(SmallImage(first, 0)) && FilesOk(SmallImage(first, 0), [File(KERNEL_NAME, [])], 0, {})
    ensures Chain(Fat(SmallImage(first, 0)), FirstCluster(Directory(SmallImage(first, 0), 0)), [])
    ensures var r := OutcomeOf(a20, true, EndMark(Fat(SmallImage(first, 0)), first, []));
      && !r.Loaded?
      && (first == 0xFFF ==> r == BeyondDisk(4126))
      && (first == 0x11E1 ==> r == DivideError)
      && (first == 0xFFE1 ==> SectorOf(first) == 0 && r == if a20 then DivideError else LineClosed)
  {
    var image, file := SmallImage(first, 0), File(KERNEL_NAME, []);
    SmallEntry(first, 0);
    SmallTables(first, 0);
    assert ChainBytes(image, []) == [];
    FollowIsChain(Fat(image), first, {}, []);
    FilesOkEnd(image, [file], {} + Elements([]));
  }
}
