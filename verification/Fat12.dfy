/**
 The floppy layout shared by the image builder, its checker and the boot loader: 12-bit table
 entries packed across byte pairs, cluster chains, directory entries.
 */
module Fat12 {
  import opened Prelude
  import opened ByteMemory

  const SECTOR: nat := 512
  const FAT_SIZE: nat := 4608        // 9 sectors
  const ROOT: nat := 9728            // sector 19
  const DATA: nat := 16896           // sector 33
  const IMAGE_SIZE: nat := 1474560   // 2880 sectors
  const END_CLUSTER: nat := 2849
  const ROOT_ENTRIES: nat := 224
  const END_OF_CHAIN: nat := 0xFFF

  // ---------- 12-bit entries

  predicate InTable(fat: Bytes, cluster: nat) {
    cluster * 3 / 2 + 1 < |fat|
  }

  function FirstOfTriple(a: u8, b: u8): (entry: nat)
    ensures entry < 0x1000
  {
    a + 0x100 * (b % 0x10)
  }

  function SecondOfTriple(b: u8, c: u8): (entry: nat)
    ensures entry < 0x1000
  {
    b / 0x10 + 0x10 * c
  }

  /**
   The table's layout: three bytes hold two entries, the first in the first byte and the low half of
   the second, the second in the high half of the second byte and the third.
   */
  function FatEntry(fat: Bytes, cluster: nat): (entry: nat)
    requires InTable(fat, cluster)
    ensures entry < 0x1000
    decreases cluster
  {
    if cluster >= 2 then FatEntry(fat[3..], cluster - 2)
    else if cluster == 0 then FirstOfTriple(fat[0], fat[1])
    else SecondOfTriple(fat[1], fat[2])
  }

  /** `(pair >> 4 if odd else pair) & 0xFFF` */
  function Twelve(low: u8, high: u8, odd: bool): (entry: nat)
    ensures entry < 0x1000
  {
    var pair := Word(low, high);
    (if odd then pair / 0x10 else pair) % 0x1000
  }

  /** `fat_entry`: the byte pair at 3c/2; odd clusters take its high twelve bits, even ones its low twelve. */
  function FatLookup(fat: Bytes, cluster: nat): (entry: nat)
    requires InTable(fat, cluster)
    ensures entry < 0x1000
  {
    var offset := cluster * 3 / 2;
    Twelve(fat[offset], fat[offset + 1], cluster % 2 == 1)
  }

  /** The pair with its twelve bits replaced: `(pair & 0xF) | link << 4`, or `(pair & 0xF000) | link`. */
  function Patched(pair: u16, cluster: nat, link: nat): u16
    requires link < 0x1000
  {
    if cluster % 2 == 1 then pair % 0x10 + link * 0x10 else pair / 0x1000 * 0x1000 + link
  }

  function Stored(fat: Bytes, cluster: nat, link: nat): Bytes
    requires InTable(fat, cluster) && link < 0x1000
  {
    var offset := cluster * 3 / 2;
    var pair := Patched(Word(fat[offset], fat[offset + 1]), cluster, link);
    fat[offset := pair % 0x100][offset + 1 := pair / 0x100]
  }

  lemma {:induction false} WordOfBytes(pair: u16)
    ensures Word(pair % 0x100, pair / 0x100) == pair
  {
  }

  lemma {:induction false} PatchedHolds(pair: u16, cluster: nat, link: nat)
    requires link < 0x1000
    ensures var p := Patched(pair, cluster, link);
      (if cluster % 2 == 1 then p / 0x10 else p) % 0x1000 == link
  {
    assert cluster % 2 == 1 ==> (link * 0x10 + pair % 0x10) / 0x10 == link;
  }

  lemma {:induction false} LookupReadsBack(fat: Bytes, cluster: nat, link: nat)
    requires InTable(fat, cluster) && link < 0x1000
    ensures FatLookup(Stored(fat, cluster, link), cluster) == link
  {
    var offset := cluster * 3 / 2;
    var pair := Patched(Word(fat[offset], fat[offset + 1]), cluster, link);
    assert Stored(fat, cluster, link)[offset] == pair % 0x100 && Stored(fat, cluster, link)[offset + 1] == pair / 0x100;
    WordOfBytes(pair);
    PatchedHolds(Word(fat[offset], fat[offset + 1]), cluster, link);
  }

  lemma {:induction false} OffsetOf(cluster: nat)
    ensures cluster * 3 / 2 == 3 * (cluster / 2) + cluster % 2
  {
  }

  lemma {:induction false} OddBefore(cluster: nat)
    requires cluster % 2 == 1
    ensures (cluster - 1) * 3 / 2 == cluster * 3 / 2 - 1 && (cluster - 1) % 2 == 0
  {
    OffsetOf(cluster);
    OffsetOf(cluster - 1);
  }

  lemma {:induction false} EvenAfter(cluster: nat)
    requires cluster % 2 == 0
    ensures (cluster + 1) * 3 / 2 == cluster * 3 / 2 + 1 && (cluster + 1) % 2 == 1
  {
    OffsetOf(cluster);
    OffsetOf(cluster + 1);
  }

  lemma {:induction false} StoredElsewhere(fat: Bytes, cluster: nat, link: nat, other: nat)
    requires InTable(fat, cluster) && InTable(fat, other) && link < 0x1000
    requires other * 3 / 2 + 1 < cluster * 3 / 2 || cluster * 3 / 2 + 1 < other * 3 / 2
    ensures FatLookup(Stored(fat, cluster, link), other) == FatLookup(fat, other)
  {
    var o := other * 3 / 2;
    assert Stored(fat, cluster, link)[o] == fat[o] && Stored(fat, cluster, link)[o + 1] == fat[o + 1];
  }

  lemma {:induction false} LowNibbleKept(pair: u16, link: nat)
    ensures (pair % 0x10 + link * 0x10) % 0x100 % 0x10 == pair % 0x100 % 0x10
  {
  }

  lemma {:induction false} PatchedLowNibble(low: u8, high: u8, cluster: nat, link: nat)
    requires link < 0x1000 && cluster % 2 == 1
    ensures Patched(Word(low, high), cluster, link) % 0x100 % 0x10 == low % 0x10
  {
    LowNibbleKept(Word(low, high), link);
    assert Word(low, high) % 0x100 == low;
  }

  lemma {:induction false} LowTwelveOf(low: u8, q: nat, r: nat)
    requires r < 0x10 && 0x10 * q + r < 0x100
    ensures Word(low, 0x10 * q + r) % 0x1000 == low + 0x100 * r
  {
    assert Word(low, 0x10 * q + r) == 0x1000 * q + (low + 0x100 * r);
  }

  lemma {:induction false} LowTwelve(low: u8, a: u8, b: u8)
    requires a % 0x10 == b % 0x10
    ensures Twelve(low, a, false) == Twelve(low, b, false)
  {
    LowTwelveOf(low, a / 0x10, a % 0x10);
    LowTwelveOf(low, b / 0x10, b % 0x10);
  }

  /** Storing the odd entry of a pair keeps the even one, which owns the low nibble of the shared byte. */
  lemma {:induction false} StoredHigh(fat: Bytes, cluster: nat, link: nat)
    requires InTable(fat, cluster) && link < 0x1000 && cluster % 2 == 1
    ensures FatLookup(Stored(fat, cluster, link), cluster - 1) == FatLookup(fat, cluster - 1)
  {
    var offset := cluster * 3 / 2;
    var stored := Stored(fat, cluster, link);
    OddBefore(cluster);
    PatchedLowNibble(fat[offset], fat[offset + 1], cluster, link);
    assert stored[offset - 1] == fat[offset - 1];
    assert stored[offset] % 0x10 == fat[offset] % 0x10;
    LowTwelve(fat[offset - 1], fat[offset], stored[offset]);
  }

  lemma {:induction false} HighNibbleKept(pair: u16, link: nat)
    requires link < 0x1000
    ensures (pair / 0x1000 * 0x1000 + link) / 0x100 / 0x10 == pair / 0x100 / 0x10
  {
  }

  lemma {:induction false} PatchedHighNibble(low: u8, high: u8, cluster: nat, link: nat)
    requires link < 0x1000 && cluster % 2 == 0
    ensures Patched(Word(low, high), cluster, link) / 0x100 / 0x10 == high / 0x10
  {
    HighNibbleKept(Word(low, high), link);
    assert Word(low, high) / 0x100 == high;
  }

  lemma {:induction false} HighTwelve(a: u8, b: u8, high: u8)
    requires a / 0x10 == b / 0x10
    ensures Twelve(a, high, true) == Twelve(b, high, true)
  {
    assert Word(a, high) / 0x10 == a / 0x10 + 0x10 * high;
    assert Word(b, high) / 0x10 == b / 0x10 + 0x10 * high;
  }

  /** Storing the even entry of a pair keeps the odd one, which owns the high nibble of the shared byte. */
  lemma {:induction false} StoredLow(fat: Bytes, cluster: nat, link: nat)
    requires InTable(fat, cluster) && InTable(fat, cluster + 1) && link < 0x1000 && cluster % 2 == 0
    ensures FatLookup(Stored(fat, cluster, link), cluster + 1) == FatLookup(fat, cluster + 1)
  {
    var offset := cluster * 3 / 2;
    var stored := Stored(fat, cluster, link);
    EvenAfter(cluster);
    PatchedHighNibble(fat[offset], fat[offset + 1], cluster, link);
    assert stored[offset + 2] == fat[offset + 2];
    HighTwelve(fat[offset + 1], stored[offset + 1], fat[offset + 2]);
  }

  lemma {:induction false} LookupKeepsOthers(fat: Bytes, cluster: nat, link: nat, other: nat)
    requires InTable(fat, cluster) && InTable(fat, other) && link < 0x1000 && other != cluster
    ensures FatLookup(Stored(fat, cluster, link), other) == FatLookup(fat, other)
  {
    OffsetOf(cluster);
    OffsetOf(other);
    if other / 2 != cluster / 2 {
      StoredElsewhere(fat, cluster, link, other);
    } else if cluster % 2 == 1 {
      StoredHigh(fat, cluster, link);
    } else {
      StoredLow(fat, cluster, link);
    }
  }

  lemma {:induction false} PairFormula(a: u8, b: u8, c: u8)
    ensures Twelve(a, b, false) == FirstOfTriple(a, b)
    ensures Twelve(b, c, true) == SecondOfTriple(b, c)
  {
    LowTwelveOf(a, b / 0x10, b % 0x10);
    assert Word(b, c) / 0x10 == b / 0x10 + 0x10 * c;
  }

  /** Two clusters on are three bytes on. */
  lemma {:induction false} LookupShifts(fat: Bytes, cluster: nat)
    requires cluster >= 2 && InTable(fat, cluster)
    ensures InTable(fat[3..], cluster - 2) && FatLookup(fat[3..], cluster - 2) == FatLookup(fat, cluster)
  {
    OffsetOf(cluster);
    OffsetOf(cluster - 2);
    var o := cluster * 3 / 2;
    assert (cluster - 2) * 3 / 2 == o - 3 && (cluster - 2) % 2 == cluster % 2;
    assert fat[3..][o - 3] == fat[o] && fat[3..][o - 2] == fat[o + 1];
  }

  lemma {:induction false} FirstEntries(fat: Bytes, cluster: nat)
    requires InTable(fat, cluster) && cluster < 2
    ensures FatLookup(fat, cluster) == FatEntry(fat, cluster)
  {
    if cluster == 0 {
      PairFormula(fat[0], fat[1], 0);
    } else {
      PairFormula(0, fat[1], fat[2]);
    }
  }

  lemma {:induction false} EntryShifts(fat: Bytes, cluster: nat)
    requires cluster >= 2 && InTable(fat, cluster) && InTable(fat[3..], cluster - 2)
    ensures FatEntry(fat, cluster) == FatEntry(fat[3..], cluster - 2)
  {
  }

  /** The lookup by byte pairs finds the entry that the layout of triples puts there. */
  lemma {:induction false} LookupIsEntry(fat: Bytes, cluster: nat)
    requires InTable(fat, cluster)
    ensures FatLookup(fat, cluster) == FatEntry(fat, cluster)
    decreases cluster
  {
    if cluster < 2 {
      FirstEntries(fat, cluster);
    } else {
      LookupShifts(fat, cluster);
      EntryShifts(fat, cluster);
      LookupIsEntry(fat[3..], cluster - 2);
    }
  }

  /** A store reads back. */
  lemma {:induction false} StoredReadsBack(fat: Bytes, cluster: nat, link: nat)
    requires InTable(fat, cluster) && link < 0x1000
    ensures FatEntry(Stored(fat, cluster, link), cluster) == link
  {
    LookupReadsBack(fat, cluster, link);
    LookupIsEntry(Stored(fat, cluster, link), cluster);
  }

  /** A store leaves every other entry alone, the neighbours that share one of its bytes included. */
  lemma {:induction false} StoredKeepsOthers(fat: Bytes, cluster: nat, link: nat, other: nat)
    requires InTable(fat, cluster) && InTable(fat, other) && link < 0x1000 && other != cluster
    ensures FatEntry(Stored(fat, cluster, link), other) == FatEntry(fat, other)
  {
    LookupKeepsOthers(fat, cluster, link, other);
    LookupIsEntry(Stored(fat, cluster, link), other);
    LookupIsEntry(fat, other);
  }

  // ---------- chains

  predicate DataCluster(cluster: nat) {
    2 <= cluster < END_CLUSTER
  }

  /** `chain` is what following the links from `cluster` visits before an end mark (0xFF8 and up). */
  ghost predicate Chain(fat: Bytes, cluster: nat, chain: seq<nat>)
    requires |fat| == FAT_SIZE
    decreases |chain|
  {
    if chain == [] then cluster >= 0xFF8
    else chain[0] == cluster && DataCluster(cluster) && Chain(fat, FatEntry(fat, cluster), chain[1..])
  }

  predicate Distinct(s: seq<nat>) {
    forall i, j :: 0 <= i < j < |s| ==> s[i] != s[j]
  }

  /** The bytes of a cluster. */
  function ClusterBytes(image: Bytes, cluster: nat): (bytes: Bytes)
    requires |image| == IMAGE_SIZE && DataCluster(cluster)
    ensures |bytes| == SECTOR
  {
    var start := DATA + (cluster - 2) * SECTOR;
    image[start..start + SECTOR]
  }

  function ChainBytes(image: Bytes, chain: seq<nat>): (bytes: Bytes)
    requires |image| == IMAGE_SIZE && forall i :: 0 <= i < |chain| ==> DataCluster(chain[i])
    ensures |bytes| == |chain| * SECTOR
    decreases |chain|
  {
    if chain == [] then [] else
      ChainBytes(image, chain[..|chain| - 1]) + ClusterBytes(image, chain[|chain| - 1])
  }

  lemma {:induction false} ChainInData(fat: Bytes, cluster: nat, chain: seq<nat>)
    requires |fat| == FAT_SIZE && Chain(fat, cluster, chain)
    ensures forall i :: 0 <= i < |chain| ==> DataCluster(chain[i])
    decreases |chain|
  {
    if chain != [] {
      ChainInData(fat, FatEntry(fat, cluster), chain[1..]);
    }
  }

  // ---------- files and directory entries

  datatype File = File(name: Bytes, content: Bytes)

  function Clusters(size: nat): nat {
    (size + SECTOR - 1) / SECTOR
  }

  function Fat(image: Bytes): Bytes
    requires |image| == IMAGE_SIZE
  {
    image[SECTOR..SECTOR + FAT_SIZE]
  }

  function SecondFat(image: Bytes): Bytes
    requires |image| == IMAGE_SIZE
  {
    image[SECTOR + FAT_SIZE..SECTOR + 2 * FAT_SIZE]
  }

  function Directory(image: Bytes, index: nat): (entry: Bytes)
    requires |image| == IMAGE_SIZE && index < ROOT_ENTRIES
    ensures |entry| == 32
  {
    image[ROOT + index * 32..ROOT + (index + 1) * 32]
  }

  function FirstCluster(entry: Bytes): u16
    requires |entry| == 32
  {
    Get16(entry, 26)
  }

  function FileSize(entry: Bytes): u32
    requires |entry| == 32
  {
    Get32(entry, 28)
  }

  // ---------- chains in numbers

  /** The table leads from each cluster of the chain to the next, and from the last one to an end mark. */
  ghost predicate LinkByLink(fat: Bytes, cluster: nat, chain: seq<nat>)
    requires |fat| == FAT_SIZE
  {
    && (forall i :: 0 <= i < |chain| ==> 2 <= chain[i] < 2849)
    && (if chain == [] then cluster >= 0xFF8
        else chain[0] == cluster && FatEntry(fat, chain[|chain| - 1]) >= 0xFF8)
    && forall i, j :: 0 <= i && j == i + 1 && j < |chain| ==> FatEntry(fat, chain[i]) == chain[j]
  }

  lemma {:induction false} LinkByLinkCons(fat: Bytes, chain: seq<nat>)
    requires |fat| == FAT_SIZE && chain != [] && 2 <= chain[0] < 2849
    ensures LinkByLink(fat, chain[0], chain) <==> LinkByLink(fat, FatEntry(fat, chain[0]), chain[1..])
  {
    var rest := chain[1..];
    assert forall i :: 0 <= i < |rest| ==> rest[i] == chain[i + 1];
    if LinkByLink(fat, chain[0], chain) {
      if rest != [] { assert FatEntry(fat, chain[0]) == chain[1] && rest[|rest| - 1] == chain[|chain| - 1]; }
      forall i, j | 0 <= i && j == i + 1 && j < |rest|
        ensures FatEntry(fat, rest[i]) == rest[j]
      {
        assert FatEntry(fat, chain[i + 1]) == chain[j + 1];
      }
    }
    if LinkByLink(fat, FatEntry(fat, chain[0]), rest) {
      forall i | 0 <= i < |chain|
        ensures 2 <= chain[i] < 2849
      {
        if i > 0 { assert rest[i - 1] == chain[i]; }
      }
      forall i, j | 0 <= i && j == i + 1 && j < |chain|
        ensures FatEntry(fat, chain[i]) == chain[j]
      {
        if i > 0 { assert FatEntry(fat, rest[i - 1]) == rest[j - 1]; }
      }
      assert rest != [] ==> chain[|chain| - 1] == rest[|rest| - 1];
    }
  }

  /** A chain, link by link. */
  lemma {:induction false} ChainMeans(fat: Bytes, cluster: nat, chain: seq<nat>)
    requires |fat| == FAT_SIZE
    ensures Chain(fat, cluster, chain) <==> LinkByLink(fat, cluster, chain)
    decreases |chain|
  {
    if chain != [] && chain[0] == cluster && 2 <= cluster < 2849 {
      ChainMeans(fat, FatEntry(fat, cluster), chain[1..]);
      LinkByLinkCons(fat, chain);
    }
  }

  /** ceil(size / 512) */
  lemma {:induction false} ClustersEnough(size: nat)
    ensures size <= Clusters(size) * 512 < size + 512
  {
  }
}
