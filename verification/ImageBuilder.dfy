/** `main` of the image builder: directory entries, packed table and data written in place. */
module ImageBuilder {
  import opened Prelude
  import opened ByteMemory
  import opened Fat12
  import opened ImageChecker

  datatype BuildError = BadBootSector | BadParameterBlock | LoaderSize | EmptyFile | FloppyFull

  /** The BIOS parameter block fields at offset 11 that the builder insists on. */
  const PARAMETERS: Bytes := [0x00, 0x02, 1, 1, 0, 2, 0xE0, 0, 0x40, 0x0B, 0xF0, 9, 0, 18, 0, 2, 0]

  predicate BootOk(boot: Bytes) {
    |boot| == SECTOR && boot[510] == 0x55 && boot[511] == 0xAA
  }

  predicate ParametersOk(boot: Bytes)
    requires |boot| == SECTOR
  {
    boot[11..28] == PARAMETERS
  }

  /** The first cluster of file i: files are laid out back to back from cluster 2. */
  function Start(files: seq<File>, i: nat): nat
    requires i <= |files|
  {
    if i == 0 then 2 else Start(files, i - 1) + Clusters(|files[i - 1].content|)
  }

  lemma {:induction false} StartGrows(files: seq<File>, i: nat, j: nat)
    requires i <= j <= |files|
    ensures Start(files, i) <= Start(files, j)
    decreases j
  {
    if i < j { StartGrows(files, i, j - 1); }
  }

  /** A later file starts behind an earlier one. */
  lemma {:induction false} StartsApart(files: seq<File>, i: nat, n: nat)
    requires i < n <= |files|
    ensures Start(files, i) + Clusters(|files[i].content|) <= Start(files, n)
  {
    StartGrows(files, i + 1, n);
  }

  predicate NonEmpty(files: seq<File>, n: nat)
    requires n <= |files|
  {
    forall i :: 0 <= i < n ==> |files[i].content| > 0
  }

  predicate Buildable(files: seq<File>) {
    NonEmpty(files, |files|) && Start(files, |files|) <= END_CLUSTER
  }

  /** The files before file i are fine, and it is empty, or does not fit any more: the error says which. */
  predicate StopsAtFile(files: seq<File>, i: nat, error: BuildError)
    requires i < |files|
  {
    && NonEmpty(files, i) && Start(files, i) <= 2849
    && (if |files[i].content| == 0 then error == EmptyFile else error == FloppyFull && Start(files, i + 1) > 2849)
  }

  ghost predicate StopsAt(files: seq<File>, error: BuildError) {
    exists i :: 0 <= i < |files| && StopsAtFile(files, i, error)
  }

  /** "Empty" is said of a file without content, "full" of one with content that ends behind the last cluster. */
  lemma {:induction false} StopMeans(files: seq<File>, i: nat, error: BuildError)
    requires i < |files| && StopsAtFile(files, i, error)
    ensures forall j :: 0 <= j < i ==> |files[j].content| > 0
    ensures error == EmptyFile <==> |files[i].content| == 0
    ensures error == FloppyFull <==> |files[i].content| > 0 && Start(files, i) + (|files[i].content| + 511) / 512 > 2849
  {
  }

  // ---------- what one file leaves behind

  function LinkOf(cluster: nat, end: nat): nat {
    if cluster + 1 == end then END_OF_CHAIN else cluster + 1
  }

  ghost predicate ChainAt(fat: Bytes, start: nat, n: nat)
    requires |fat| == FAT_SIZE && start + n <= END_CLUSTER
  {
    forall c :: start <= c < start + n ==> FatEntry(fat, c) == LinkOf(c, start + n)
  }

  function Base(cluster: nat): nat
    requires cluster >= 2
  {
    DATA + (cluster - 2) * SECTOR
  }

  ghost predicate DataAt(image: Bytes, content: Bytes, start: nat) {
    start >= 2 && Base(start) + |content| <= |image| && image[Base(start)..Base(start) + |content|] == content
  }

  /** Attribute 0x20, and zeros up to the first cluster. */
  const ENTRY_MIDDLE: Bytes := [0x20, 0, 0, 0, 0, 0, 0, 0, 0, 0, 0, 0, 0, 0, 0]

  lemma {:induction false} PackedValues(entry: Bytes, name: Bytes, start: Bytes, size: Bytes)
    requires |name| == 11 && |start| == 2 && |size| == 4
    requires entry == name + ENTRY_MIDDLE + start + size
    ensures |entry| == 32 && entry[..11] == name
    ensures entry[11] == 0x20 && forall k :: 12 <= k < 26 ==> entry[k] == 0
    ensures FirstCluster(entry) == LittleEndian(start)
    ensures FileSize(entry) == LittleEndian(size)
  {
    assert entry[26..28] == start && entry[28..32] == size;
  }

  /** The 32 bytes of a directory entry. */
  function PackEntry(name: Bytes, start: u16, size: u32): (entry: Bytes)
    requires |name| == 11
    ensures |entry| == 32
    ensures entry[..11] == name && FirstCluster(entry) == start && FileSize(entry) == size
    ensures entry[11] == 0x20 && forall k :: 12 <= k < 26 ==> entry[k] == 0
  {
    var entry := name + ENTRY_MIDDLE + Le16(start) + Le32(size);
    PackedValues(entry, name, Le16(start), Le32(size));
    entry
  }

  ghost predicate EntryAt(image: Bytes, file: File, index: nat, start: nat)
    requires |image| == IMAGE_SIZE && index < ROOT_ENTRIES
  {
    && |file.name| == 11 && |file.content| < 0x1_0000_0000 && start < 0x1_0000
    && Directory(image, index) == PackEntry(file.name, start, |file.content|)
  }

  ghost predicate FileAt(image: Bytes, fat: Bytes, file: File, index: nat, start: nat)
    requires |image| == IMAGE_SIZE && |fat| == FAT_SIZE && index < ROOT_ENTRIES
  {
    && start >= 2 && start + Clusters(|file.content|) <= END_CLUSTER
    && EntryAt(image, file, index, start)
    && ChainAt(fat, start, Clusters(|file.content|))
    && DataAt(image, file.content, start)
  }

  ghost predicate PlacedAt(image: Bytes, fat: Bytes, files: seq<File>, i: nat)
    requires |image| == IMAGE_SIZE && |fat| == FAT_SIZE && i < |files| <= ROOT_ENTRIES
  {
    FileAt(image, fat, files[i], i, Start(files, i))
  }

  /** The first n files are in place. */
  ghost predicate Placed(image: Bytes, fat: Bytes, files: seq<File>, n: nat)
    requires |image| == IMAGE_SIZE && |fat| == FAT_SIZE && n <= |files| <= ROOT_ENTRIES
  {
    forall i :: 0 <= i < n ==> PlacedAt(image, fat, files, i)
  }

  /** Byte k lies behind file i's content, in front of the next file's. */
  predicate InLastSector(files: seq<File>, i: nat, k: int)
    requires i < |files|
  {
    DATA + (Start(files, i) - 2) * SECTOR + |files[i].content| <= k < DATA + (Start(files, i + 1) - 2) * SECTOR
      && k < IMAGE_SIZE
  }

  /** Nothing else stands in the root directory and the data area, the rest of each file's last sector included. */
  ghost predicate BlankElsewhere(image: Bytes, files: seq<File>, n: nat)
    requires |image| == IMAGE_SIZE && n <= |files| <= ROOT_ENTRIES
  {
    && (forall k :: ROOT + 32 * n <= k < DATA ==> image[k] == 0)
    && (forall k :: DATA + (Start(files, n) - 2) * SECTOR <= k < IMAGE_SIZE ==> image[k] == 0)
    && forall i, k :: 0 <= i < n && InLastSector(files, i, k) ==> image[k] == 0
  }

  /** The table entries from a cluster on are free. */
  ghost predicate FreeFrom(fat: Bytes, from: nat)
    requires |fat| == FAT_SIZE
  {
    forall c: nat :: from <= c < END_CLUSTER ==> FatEntry(fat, c) == 0
  }

  /**
   A finished image: boot sector, two equal tables that hold the media bytes, every file in place,
   and zeros elsewhere.
   */
  ghost predicate Finished(image: Bytes, boot: Bytes, files: seq<File>)
    requires |files| <= ROOT_ENTRIES
  {
    && |image| == IMAGE_SIZE && image[..SECTOR] == boot
    && Fat(image) == SecondFat(image)
    && Fat(image)[..3] == [0xF0, 0xFF, 0xFF]
    && Placed(image, Fat(image), files, |files|)
    && BlankElsewhere(image, files, |files|) && FreeFrom(Fat(image), Start(files, |files|))
  }

  // ---------- the writes

  method StoreLink(fat: array<u8>, cluster: nat, link: nat)
    requires fat.Length == FAT_SIZE && 2 <= cluster < END_CLUSTER && link < 0x1000
    modifies fat
    ensures fat[..] == Stored(old(fat[..]), cluster, link)
  {
    var offset := cluster * 3 / 2;
    var pair := Patched(Word(fat[offset], fat[offset + 1]), cluster, link);
    fat[offset] := pair % 0x100;
    fat[offset + 1] := pair / 0x100;
  }

  /** The first i links of an n-cluster chain are stored, and every other entry is as before. */
  ghost predicate Linked(before: Bytes, fat: Bytes, start: nat, i: nat, n: nat)
    requires |before| == FAT_SIZE && |fat| == FAT_SIZE && start + n <= END_CLUSTER
  {
    && i <= n && fat[..3] == before[..3]
    && forall c: nat :: c < END_CLUSTER ==>
         FatEntry(fat, c) == if start <= c < start + i then LinkOf(c, start + n) else FatEntry(before, c)
  }

  lemma {:induction false} LinkStored(before: Bytes, fat: Bytes, start: nat, i: nat, n: nat)
    requires |before| == FAT_SIZE && |fat| == FAT_SIZE && start >= 2 && i < n && start + n <= END_CLUSTER
    requires Linked(before, fat, start, i, n)
    ensures Linked(before, Stored(fat, start + i, LinkOf(start + i, start + n)), start, i + 1, n)
  {
    var link := LinkOf(start + i, start + n);
    var stored := Stored(fat, start + i, link);
    StoredReadsBack(fat, start + i, link);
    forall c: nat | c < END_CLUSTER
      ensures FatEntry(stored, c) == if start <= c < start + i + 1 then LinkOf(c, start + n) else FatEntry(before, c)
    {
      if c != start + i { StoredKeepsOthers(fat, start + i, link, c); }
    }
  }

  /** The table after the first i stores of an n-cluster chain. */
  ghost function StoredLinks(fat: Bytes, start: nat, i: nat, n: nat): (r: Bytes)
    requires |fat| == FAT_SIZE && i <= n && start + n <= END_CLUSTER
    ensures |r| == FAT_SIZE
  {
    if i == 0 then fat
    else Stored(StoredLinks(fat, start, i - 1, n), start + i - 1, LinkOf(start + i - 1, start + n))
  }

  lemma {:induction false} StoredLinksLinked(fat: Bytes, start: nat, i: nat, n: nat)
    requires |fat| == FAT_SIZE && start >= 2 && i <= n && start + n <= END_CLUSTER
    ensures Linked(fat, StoredLinks(fat, start, i, n), start, i, n)
  {
    if i > 0 {
      StoredLinksLinked(fat, start, i - 1, n);
      LinkStored(fat, StoredLinks(fat, start, i - 1, n), start, i - 1, n);
    }
  }

  /** How much of the content the first i blocks hold. */
  function Filled(content: Bytes, i: nat): (n: nat)
    ensures n <= |content|
  {
    if i * SECTOR <= |content| then i * SECTOR else |content|
  }

  function Block(content: Bytes, i: nat): Bytes
    requires i < Clusters(|content|)
  {
    content[i * SECTOR..Filled(content, i + 1)]
  }

  /** The disk after the first i block writes. */
  ghost function WrittenBlocks(disk: Bytes, content: Bytes, base: nat, i: nat): (r: Bytes)
    requires base + |content| <= |disk| && i <= Clusters(|content|)
    ensures |r| == |disk|
  {
    if i == 0 then disk
    else Overwrite(WrittenBlocks(disk, content, base, i - 1), base + (i - 1) * SECTOR, Block(content, i - 1))
  }

  /** The next block begins where the content written so far ends. */
  lemma {:induction false} BlockFollows(content: Bytes, i: nat)
    requires i < Clusters(|content|)
    ensures Filled(content, i) == i * SECTOR
    ensures content[..Filled(content, i + 1)] == content[..Filled(content, i)] + Block(content, i)
  {
  }

  /** Block by block comes to writing the content in one piece. */
  lemma {:induction false} BlocksAreContent(disk: Bytes, content: Bytes, base: nat, i: nat)
    requires base + |content| <= |disk| && i <= Clusters(|content|)
    ensures WrittenBlocks(disk, content, base, i) == Overwrite(disk, base, content[..Filled(content, i)])
  {
    if i > 0 {
      BlocksAreContent(disk, content, base, i - 1);
      BlockFollows(content, i - 1);
      OverwriteJoins(disk, base, content[..Filled(content, i - 1)], Block(content, i - 1));
    } else {
      assert Overwrite(disk, base, content[..0]) == disk;
    }
  }

  lemma {:induction false} OneMoreLink(table: Bytes, start: nat, i: nat, n: nat)
    requires |table| == FAT_SIZE && i < n && start + n <= END_CLUSTER
    ensures StoredLinks(table, start, i + 1, n) ==
      Stored(StoredLinks(table, start, i, n), start + i, LinkOf(start + i, start + n))
  {
  }

  /** The link of one round. */
  method WriteLink(fat: array<u8>, start: nat, clusters: nat, i: nat, ghost table: Bytes)
    requires fat.Length == FAT_SIZE && |table| == FAT_SIZE
    requires start >= 2 && i < clusters && start + clusters <= END_CLUSTER
    requires fat[..] == StoredLinks(table, start, i, clusters)
    modifies fat
    ensures fat[..] == StoredLinks(table, start, i + 1, clusters)
  {
    var cluster := start + i;
    var link := if i == clusters - 1 then END_OF_CHAIN else cluster + 1;
    OneMoreLink(table, start, i, clusters);
    StoreLink(fat, cluster, link);
  }

  /** The block of one round. */
  method WriteDataBlock(image: array<u8>, content: Bytes, start: nat, i: nat, ghost disk: Bytes)
    requires image.Length == |disk| == IMAGE_SIZE
    requires start >= 2 && i < Clusters(|content|) && start + Clusters(|content|) <= END_CLUSTER
    requires image[..] == WrittenBlocks(disk, content, Base(start), i)
    modifies image
    ensures image[..] == WrittenBlocks(disk, content, Base(start), i + 1)
  {
    WriteBlock(image, DATA + (start + i - 2) * SECTOR, Block(content, i));
  }

  /** One round: the cluster's link, then its block. */
  method WriteCluster(
    image: array<u8>, fat: array<u8>, content: Bytes, start: nat, clusters: nat, i: nat,
    ghost table: Bytes, ghost disk: Bytes)
    requires image.Length == IMAGE_SIZE && fat.Length == FAT_SIZE && image != fat
    requires |table| == FAT_SIZE && |disk| == IMAGE_SIZE
    requires start >= 2 && i < clusters == Clusters(|content|) && start + clusters <= END_CLUSTER
    requires fat[..] == StoredLinks(table, start, i, clusters)
    requires image[..] == WrittenBlocks(disk, content, Base(start), i)
    modifies image, fat
    ensures fat[..] == StoredLinks(table, start, i + 1, clusters)
    ensures image[..] == WrittenBlocks(disk, content, Base(start), i + 1)
  {
    WriteLink(fat, start, clusters, i, table);
    WriteDataBlock(image, content, start, i, disk);
  }

  /** One file's clusters. */
  method WriteClusters(image: array<u8>, fat: array<u8>, content: Bytes, start: nat)
    requires image.Length == IMAGE_SIZE && fat.Length == FAT_SIZE && image != fat
    requires start >= 2 && start + Clusters(|content|) <= END_CLUSTER
    modifies image, fat
    ensures fat[..] == StoredLinks(old(fat[..]), start, Clusters(|content|), Clusters(|content|))
    ensures image[..] == Overwrite(old(image[..]), Base(start), content)
  {
    var clusters := Clusters(|content|);
    ghost var table, disk := fat[..], image[..];
    for i := 0 to clusters
      invariant fat[..] == StoredLinks(table, start, i, clusters)
      invariant image[..] == WrittenBlocks(disk, content, Base(start), i)
    {
      WriteCluster(image, fat, content, start, clusters, i, table, disk);
    }
    assert content[..Filled(content, clusters)] == content;
    BlocksAreContent(disk, content, Base(start), clusters);
  }

  method WriteEntry(image: array<u8>, file: File, index: nat, start: u16)
    requires image.Length == IMAGE_SIZE && index < ROOT_ENTRIES && |file.name| == 11 && |file.content| < 0x1_0000_0000
    modifies image
    ensures image[..] == Overwrite(old(image[..]), ROOT + index * 32, PackEntry(file.name, start, |file.content|))
  {
    WriteBlock(image, ROOT + index * 32, PackEntry(file.name, start, |file.content|));
  }

  /** The image after one file. */
  ghost function WithFile(image: Bytes, file: File, index: nat, start: u16): (r: Bytes)
    requires |image| == IMAGE_SIZE && index < ROOT_ENTRIES && |file.name| == 11
    requires start >= 2 && start + Clusters(|file.content|) <= END_CLUSTER
    ensures |r| == IMAGE_SIZE
  {
    Overwrite(Overwrite(image, ROOT + index * 32, PackEntry(file.name, start, |file.content|)), Base(start),
      file.content)
  }

  method WriteFile(image: array<u8>, fat: array<u8>, file: File, index: nat, start: u16)
    requires image.Length == IMAGE_SIZE && fat.Length == FAT_SIZE && image != fat
    requires index < ROOT_ENTRIES && |file.name| == 11
    requires start >= 2 && start + Clusters(|file.content|) <= END_CLUSTER
    modifies image, fat
    ensures image[..] == WithFile(old(image[..]), file, index, start)
    ensures fat[..] == StoredLinks(old(fat[..]), start, Clusters(|file.content|), Clusters(|file.content|))
  {
    ghost var table := fat[..];
    WriteEntry(image, file, index, start);
    assert fat[..] == table;
    WriteClusters(image, fat, file.content, start);
  }

  // ---------- files do not disturb each other

  /** The n entries from `start` on are the same in both tables. */
  ghost predicate SameLinks(fat: Bytes, fat': Bytes, start: nat, n: nat)
    requires |fat| == |fat'| == FAT_SIZE && start + n <= END_CLUSTER
  {
    n > 0 ==> FatEntry(fat', start + n - 1) == FatEntry(fat, start + n - 1) && SameLinks(fat, fat', start, n - 1)
  }

  lemma {:induction false} SameLinkAt(fat: Bytes, fat': Bytes, start: nat, n: nat, c: nat)
    requires |fat| == |fat'| == FAT_SIZE && start + n <= END_CLUSTER && SameLinks(fat, fat', start, n)
    requires start <= c < start + n
    ensures FatEntry(fat', c) == FatEntry(fat, c)
    decreases n
  {
    if c < start + n - 1 { SameLinkAt(fat, fat', start, n - 1, c); }
  }

  lemma {:induction false} SameLinksReflexive(fat: Bytes, start: nat, n: nat)
    requires |fat| == FAT_SIZE && start + n <= END_CLUSTER
    ensures SameLinks(fat, fat, start, n)
  {
    if n > 0 { SameLinksReflexive(fat, start, n - 1); }
  }

  lemma {:induction false} SameLinksChain(fat: Bytes, fat': Bytes, start: nat, n: nat)
    requires |fat| == |fat'| == FAT_SIZE && start + n <= END_CLUSTER && SameLinks(fat, fat', start, n)
    requires ChainAt(fat, start, n)
    ensures ChainAt(fat', start, n)
  {
    forall c | start <= c < start + n
      ensures FatEntry(fat', c) == LinkOf(c, start + n)
    {
      SameLinkAt(fat, fat', start, n, c);
    }
  }

  lemma {:induction false} FileKept(
    image: Bytes, fat: Bytes, image': Bytes, fat': Bytes, file: File, index: nat, start: nat)
    requires |image| == |image'| == IMAGE_SIZE && |fat| == |fat'| == FAT_SIZE && index < ROOT_ENTRIES
    requires FileAt(image, fat, file, index, start)
    requires Directory(image', index) == Directory(image, index)
    requires image'[Base(start)..Base(start) + |file.content|] == image[Base(start)..Base(start) + |file.content|]
    requires SameLinks(fat, fat', start, Clusters(|file.content|))
    ensures FileAt(image', fat', file, index, start)
  {
    SameLinksChain(fat, fat', start, Clusters(|file.content|));
  }

  lemma {:induction false} NewFilePlaced(image: Bytes, fat: Bytes, file: File, index: nat, start: u16)
    requires |image| == IMAGE_SIZE && |fat| == FAT_SIZE && index < ROOT_ENTRIES && |file.name| == 11
    requires start >= 2 && start + Clusters(|file.content|) <= END_CLUSTER
    ensures var n := Clusters(|file.content|);
      FileAt(WithFile(image, file, index, start), StoredLinks(fat, start, n, n), file, index, start)
  {
    var n := Clusters(|file.content|);
    var entry := PackEntry(file.name, start, |file.content|);
    var named := Overwrite(image, ROOT + index * 32, entry);
    assert Directory(named, index) == entry;
    OverwriteKeeps(named, Base(start), file.content, ROOT + index * 32, ROOT + (index + 1) * 32);
    StoredLinksLinked(fat, start, n, n);
  }

  lemma {:induction false} LaterLinkKeeps(fat: Bytes, start: nat, k: nat, c: nat)
    requires |fat| == FAT_SIZE && 2 <= c < start && start + k <= END_CLUSTER
    ensures FatEntry(StoredLinks(fat, start, k, k), c) == FatEntry(fat, c)
  {
    StoredLinksLinked(fat, start, k, k);
  }

  /** Storing a later file's links keeps the links before them. */
  lemma {:induction false} LaterLinksKeep(fat: Bytes, start: nat, k: nat, s: nat, n: nat)
    requires |fat| == FAT_SIZE && s >= 2 && s + n <= start && start + k <= END_CLUSTER
    ensures SameLinks(fat, StoredLinks(fat, start, k, k), s, n)
  {
    if n > 0 {
      LaterLinkKeeps(fat, start, k, s + n - 1);
      LaterLinksKeep(fat, start, k, s, n - 1);
    }
  }

  /** A file's clusters end before the next file's begin. */
  lemma {:induction false} ContentEnds(length: nat, s: nat, start: nat)
    requires s >= 2 && s + Clusters(length) <= start
    ensures Base(s) + length <= Base(start)
  {
    assert length <= Clusters(length) * SECTOR;
  }

  lemma {:induction false} EntryKept(image: Bytes, file: File, n: nat, start: u16, i: nat)
    requires |image| == IMAGE_SIZE && i < n < ROOT_ENTRIES && |file.name| == 11
    requires start >= 2 && start + Clusters(|file.content|) <= END_CLUSTER
    ensures Directory(WithFile(image, file, n, start), i) == Directory(image, i)
  {
    var entry := PackEntry(file.name, start, |file.content|);
    var named := Overwrite(image, ROOT + n * 32, entry);
    OverwriteKeeps(image, ROOT + n * 32, entry, ROOT + i * 32, ROOT + (i + 1) * 32);
    OverwriteKeeps(named, Base(start), file.content, ROOT + i * 32, ROOT + (i + 1) * 32);
  }

  lemma {:induction false} DataKept(image: Bytes, file: File, n: nat, start: u16, s: nat, length: nat)
    requires |image| == IMAGE_SIZE && n < ROOT_ENTRIES && |file.name| == 11
    requires start >= 2 && start + Clusters(|file.content|) <= END_CLUSTER
    requires s >= 2 && Base(s) + length <= Base(start)
    ensures Base(s) + length <= IMAGE_SIZE
    ensures WithFile(image, file, n, start)[Base(s)..Base(s) + length] == image[Base(s)..Base(s) + length]
  {
    var entry := PackEntry(file.name, start, |file.content|);
    var named := Overwrite(image, ROOT + n * 32, entry);
    OverwriteKeeps(image, ROOT + n * 32, entry, Base(s), Base(s) + length);
    OverwriteKeeps(named, Base(start), file.content, Base(s), Base(s) + length);
  }

  /** Writing a later file keeps an earlier one: entry, data and links are elsewhere. */
  lemma {:induction false} OldFileKept(
    image: Bytes, fat: Bytes, earlier: File, i: nat, s: nat, file: File, n: nat, start: u16)
    requires |image| == IMAGE_SIZE && |fat| == FAT_SIZE && i < n < ROOT_ENTRIES && |file.name| == 11
    requires FileAt(image, fat, earlier, i, s) && s + Clusters(|earlier.content|) <= start
    requires start + Clusters(|file.content|) <= END_CLUSTER
    ensures var k := Clusters(|file.content|);
      FileAt(WithFile(image, file, n, start), StoredLinks(fat, start, k, k), earlier, i, s)
  {
    var k := Clusters(|file.content|);
    EntryKept(image, file, n, start, i);
    ContentEnds(|earlier.content|, s, start);
    DataKept(image, file, n, start, s, |earlier.content|);
    LaterLinksKeep(fat, start, k, s, Clusters(|earlier.content|));
    FileKept(image, fat, WithFile(image, file, n, start), StoredLinks(fat, start, k, k), earlier, i, s);
  }

  /** The state of disk and table after file n, given the state before it. */
  ghost function DiskAfter(image: Bytes, files: seq<File>, n: nat): (r: Bytes)
    requires |image| == IMAGE_SIZE && n < |files| <= ROOT_ENTRIES
    requires |files[n].name| == 11 && Start(files, n + 1) <= END_CLUSTER
    ensures |r| == IMAGE_SIZE
  {
    StartGrows(files, 0, n);
    WithFile(image, files[n], n, Start(files, n))
  }

  ghost function TableAfter(fat: Bytes, files: seq<File>, n: nat): (r: Bytes)
    requires |fat| == FAT_SIZE && n < |files| && Start(files, n + 1) <= END_CLUSTER
    ensures |r| == FAT_SIZE
  {
    var k := Clusters(|files[n].content|);
    StoredLinks(fat, Start(files, n), k, k)
  }

  lemma {:induction false} AfterIsWithFile(image: Bytes, fat: Bytes, files: seq<File>, n: nat)
    requires |image| == IMAGE_SIZE && |fat| == FAT_SIZE && n < |files| <= ROOT_ENTRIES
    requires |files[n].name| == 11 && Start(files, n + 1) <= END_CLUSTER
    ensures 2 <= Start(files, n) && Start(files, n) + Clusters(|files[n].content|) <= END_CLUSTER
    ensures DiskAfter(image, files, n) == WithFile(image, files[n], n, Start(files, n))
    ensures TableAfter(fat, files, n)
      == StoredLinks(fat, Start(files, n), Clusters(|files[n].content|), Clusters(|files[n].content|))
  {
    StartGrows(files, 0, n);
  }

  lemma {:induction false} EarlierPlaced(image: Bytes, fat: Bytes, files: seq<File>, n: nat, i: nat)
    requires |image| == IMAGE_SIZE && |fat| == FAT_SIZE && i < n < |files| <= ROOT_ENTRIES
    requires |files[n].name| == 11 && Start(files, n + 1) <= END_CLUSTER
    requires PlacedAt(image, fat, files, i)
    ensures PlacedAt(DiskAfter(image, files, n), TableAfter(fat, files, n), files, i)
  {
    StartsApart(files, i, n);
    AfterIsWithFile(image, fat, files, n);
    OldFileKept(image, fat, files[i], i, Start(files, i), files[n], n, Start(files, n));
  }

  lemma {:induction false} LatestPlaced(image: Bytes, fat: Bytes, files: seq<File>, n: nat)
    requires |image| == IMAGE_SIZE && |fat| == FAT_SIZE && n < |files| <= ROOT_ENTRIES
    requires |files[n].name| == 11 && Start(files, n + 1) <= END_CLUSTER
    ensures PlacedAt(DiskAfter(image, files, n), TableAfter(fat, files, n), files, n)
  {
    StartGrows(files, 0, n);
    NewFilePlaced(image, fat, files[n], n, Start(files, n));
  }

  lemma {:induction false} NextFilePlaced(image: Bytes, fat: Bytes, files: seq<File>, n: nat)
    requires |image| == IMAGE_SIZE && |fat| == FAT_SIZE && n < |files| <= ROOT_ENTRIES
    requires |files[n].name| == 11 && Start(files, n + 1) <= END_CLUSTER
    requires Placed(image, fat, files, n)
    ensures Placed(DiskAfter(image, files, n), TableAfter(fat, files, n), files, n + 1)
  {
    forall i | 0 <= i < n + 1
      ensures PlacedAt(DiskAfter(image, files, n), TableAfter(fat, files, n), files, i)
    {
      if i < n { EarlierPlaced(image, fat, files, n, i); } else { LatestPlaced(image, fat, files, n); }
    }
  }

  /** Behind the new file everything is as blank as before. */
  lemma {:induction false} StaysBlank(image: Bytes, files: seq<File>, n: nat)
    requires |image| == IMAGE_SIZE && n < |files| <= ROOT_ENTRIES
    requires |files[n].name| == 11 && Start(files, n + 1) <= END_CLUSTER
    requires BlankElsewhere(image, files, n)
    ensures BlankElsewhere(DiskAfter(image, files, n), files, n + 1)
  {
    StartGrows(files, 0, n);
    var start, file := Start(files, n), files[n];
    ContentEnds(|file.content|, start, Start(files, n + 1));
    var after := DiskAfter(image, files, n);
    forall k | 0 <= k < IMAGE_SIZE
      ensures ROOT + 32 * (n + 1) <= k < DATA || Base(start) + |file.content| <= k || DATA <= k < Base(start) ==>
        after[k] == image[k]
    {
    }
    forall i, k | 0 <= i < n + 1 && InLastSector(files, i, k)
      ensures after[k] == 0
    {
      if i < n { StartGrows(files, i + 1, n); StartGrows(files, 0, i); }
    }
  }

  lemma {:induction false} StaysFree(fat: Bytes, files: seq<File>, n: nat)
    requires |fat| == FAT_SIZE && n < |files| && Start(files, n + 1) <= END_CLUSTER && FreeFrom(fat, Start(files, n))
    ensures FreeFrom(TableAfter(fat, files, n), Start(files, n + 1))
  {
    StartGrows(files, 0, n);
    var k := Clusters(|files[n].content|);
    StoredLinksLinked(fat, Start(files, n), k, k);
  }

  /** A fresh table: the media bytes, and every other entry free. */
  lemma {:induction false} FreshTable(fat: Bytes)
    requires |fat| == FAT_SIZE && forall k :: 3 <= k < FAT_SIZE ==> fat[k] == 0
    ensures FreeFrom(fat, 2)
  {
    forall c: nat | 2 <= c < END_CLUSTER
      ensures FatEntry(fat, c) == 0
    {
      LookupIsEntry(fat, c);
      assert fat[c * 3 / 2] == 0 && fat[c * 3 / 2 + 1] == 0;
    }
  }

  lemma {:induction false} SuffixSlice(a: Bytes, b: Bytes, from: nat, lo: nat, hi: nat)
    requires |a| == |b| && from <= lo <= hi <= |a| && a[from..] == b[from..]
    ensures a[lo..hi] == b[lo..hi]
  {
    forall k | lo <= k < hi
      ensures a[k] == b[k]
    {
      assert a[k] == a[from..][k - from] && b[k] == b[from..][k - from];
    }
  }

  lemma {:induction false} OnlyTablesChange(image: Bytes, image': Bytes, fat: Bytes, files: seq<File>, n: nat)
    requires |image| == |image'| == IMAGE_SIZE && |fat| == FAT_SIZE && n <= |files| <= ROOT_ENTRIES
    requires Placed(image, fat, files, n) && image'[ROOT..] == image[ROOT..]
    ensures Placed(image', fat, files, n)
  {
    forall i | 0 <= i < n
      ensures PlacedAt(image', fat, files, i)
    {
      assert PlacedAt(image, fat, files, i);
      SuffixSlice(image, image', ROOT, ROOT + i * 32, ROOT + (i + 1) * 32);
      SuffixSlice(image, image', ROOT, Base(Start(files, i)), Base(Start(files, i)) + |files[i].content|);
      SameLinksReflexive(fat, Start(files, i), Clusters(|files[i].content|));
      FileKept(image, fat, image', fat, files[i], i, Start(files, i));
    }
  }

  // ---------- the whole image

  lemma {:induction false} WithFileKeepsBoot(image: Bytes, file: File, index: nat, start: u16)
    requires |image| == IMAGE_SIZE && index < ROOT_ENTRIES && |file.name| == 11
    requires start >= 2 && start + Clusters(|file.content|) <= END_CLUSTER
    ensures WithFile(image, file, index, start)[..SECTOR] == image[..SECTOR]
  {
  }

  /** One round of the file loop. */
  method PlaceFile(image: array<u8>, fat: array<u8>, files: seq<File>, index: nat)
    requires image.Length == IMAGE_SIZE && fat.Length == FAT_SIZE && image != fat
    requires index < |files| <= ROOT_ENTRIES && |files[index].name| == 11 && Start(files, index + 1) <= END_CLUSTER
    requires Placed(image[..], fat[..], files, index)
    requires BlankElsewhere(image[..], files, index) && FreeFrom(fat[..], Start(files, index))
    modifies image, fat
    ensures Placed(image[..], fat[..], files, index + 1)
    ensures BlankElsewhere(image[..], files, index + 1) && FreeFrom(fat[..], Start(files, index + 1))
    ensures image[..SECTOR] == old(image[..SECTOR]) && fat[..3] == old(fat[..3])
  {
    ghost var disk, table := image[..], fat[..];
    NextFilePlaced(disk, table, files, index);
    StaysBlank(disk, files, index);
    StaysFree(table, files, index);
    StartGrows(files, 0, index);
    StoredLinksLinked(table, Start(files, index), Clusters(|files[index].content|), Clusters(|files[index].content|));
    WithFileKeepsBoot(disk, files[index], index, Start(files, index));
    WriteFile(image, fat, files[index], index, Start(files, index));
    assert image[..] == DiskAfter(disk, files, index) && fat[..] == TableAfter(table, files, index);
    assert image[..SECTOR] == image[..][..SECTOR] && fat[..3] == fat[..][..3];
  }

  /** The file loop; it stops at the first empty file or when the floppy is full. */
  method PlaceFiles(image: array<u8>, fat: array<u8>, files: seq<File>) returns (r: Result<(), BuildError>)
    requires image.Length == IMAGE_SIZE && fat.Length == FAT_SIZE && image != fat && |files| <= ROOT_ENTRIES
    requires forall i :: 0 <= i < |files| ==> |files[i].name| == 11
    requires BlankElsewhere(image[..], files, 0) && FreeFrom(fat[..], 2)
    modifies image, fat
    ensures r.Ok? <==> Buildable(files)
    ensures r.Err? ==> StopsAt(files, r.error)
    ensures r.Ok? ==> Placed(image[..], fat[..], files, |files|)
    ensures r.Ok? ==> BlankElsewhere(image[..], files, |files|) && FreeFrom(fat[..], Start(files, |files|))
    ensures image[..SECTOR] == old(image[..SECTOR]) && fat[..3] == old(fat[..3])
  {
    var next := 2;
    for index := 0 to |files|
      invariant next == Start(files, index) && 2 <= next <= END_CLUSTER
      invariant NonEmpty(files, index)
      invariant image[..SECTOR] == old(image[..SECTOR]) && fat[..3] == old(fat[..3])
      invariant Placed(image[..], fat[..], files, index)
      invariant BlankElsewhere(image[..], files, index) && FreeFrom(fat[..], Start(files, index))
    {
      var size := |files[index].content|;
      if size == 0 {
        assert StopsAtFile(files, index, EmptyFile);
        return Err(EmptyFile);
      }
      var clusters := (size + SECTOR - 1) / SECTOR;
      if next + clusters > END_CLUSTER {
        StartGrows(files, index + 1, |files|);
        assert StopsAtFile(files, index, FloppyFull);
        return Err(FloppyFull);
      }
      PlaceFile(image, fat, files, index);
      next := next + clusters;
    }
    return Ok(());
  }

  /** Copying the table into both places finishes the image. */
  lemma {:induction false} TablesFinish(image: Bytes, fat: Bytes, boot: Bytes, files: seq<File>)
    requires |image| == IMAGE_SIZE && |fat| == FAT_SIZE && |files| <= ROOT_ENTRIES
    requires image[..SECTOR] == boot && fat[..3] == [0xF0, 0xFF, 0xFF] && Placed(image, fat, files, |files|)
    requires BlankElsewhere(image, files, |files|) && FreeFrom(fat, Start(files, |files|))
    ensures Finished(Overwrite(Overwrite(image, SECTOR, fat), SECTOR + FAT_SIZE, fat), boot, files)
  {
    var once := Overwrite(image, SECTOR, fat);
    var image' := Overwrite(once, SECTOR + FAT_SIZE, fat);
    OverwriteKeeps(once, SECTOR + FAT_SIZE, fat, SECTOR, SECTOR + FAT_SIZE);
    assert Fat(image') == fat && SecondFat(image') == fat;
    OverwriteKeeps(image, SECTOR, fat, ROOT, IMAGE_SIZE);
    OverwriteKeeps(once, SECTOR + FAT_SIZE, fat, ROOT, IMAGE_SIZE);
    assert image'[ROOT..] == image[ROOT..];
    OnlyTablesChange(image, image', fat, files, |files|);
    StartGrows(files, 0, |files|);
    forall k | ROOT <= k < IMAGE_SIZE
      ensures image'[k] == image[k]
    {
      assert image'[k] == image'[ROOT..][k - ROOT];
    }
    forall i, k | 0 <= i < |files| && InLastSector(files, i, k)
      ensures image'[k] == 0
    {
      StartGrows(files, 0, i);
    }
  }

  method FinishTables(image: array<u8>, fat: array<u8>, boot: Bytes, files: seq<File>)
    requires image.Length == IMAGE_SIZE && fat.Length == FAT_SIZE && image != fat && |files| <= ROOT_ENTRIES
    requires image[..SECTOR] == boot && fat[..3] == [0xF0, 0xFF, 0xFF] && Placed(image[..], fat[..], files, |files|)
    requires BlankElsewhere(image[..], files, |files|) && FreeFrom(fat[..], Start(files, |files|))
    modifies image
    ensures Finished(image[..], boot, files)
  {
    var table := fat[..];
    assert image[..SECTOR] == image[..][..SECTOR] && fat[..3] == table[..3];
    TablesFinish(image[..], table, boot, files);
    WriteBlock(image, SECTOR, table);
    WriteBlock(image, SECTOR + FAT_SIZE, table);
  }

  method Build(boot: Bytes, files: seq<File>) returns (r: Result<array<u8>, BuildError>)
    requires BootOk(boot) && |files| <= ROOT_ENTRIES
    requires forall i :: 0 <= i < |files| ==> |files[i].name| == 11
    ensures r.Ok? <==> Buildable(files)
    ensures r.Err? ==> StopsAt(files, r.error)
    ensures r.Ok? ==> Finished(r.value[..], boot, files)
  {
    var image := new u8[IMAGE_SIZE](_ => 0);
    WriteBlock(image, 0, boot);
    assert image[..SECTOR] == boot;
    var fat := new u8[FAT_SIZE](i => if i == 0 then 0xF0 else if i <= 2 then 0xFF else 0);
    assert fat[..3] == [0xF0, 0xFF, 0xFF];
    FreshTable(fat[..]);
    var placed := PlaceFiles(image, fat, files);
    if placed.Err? {
      return Err(placed.error);
    }
    FinishTables(image, fat, boot, files);
    return Ok(image);
  }

  const LOADER_NAME: Bytes := [0x4C, 0x4F, 0x41, 0x44, 0x45, 0x52, 0x20, 0x20, 0x42, 0x49, 0x4E]   // LOADER  BIN
  const KERNEL_NAME: Bytes := [0x4B, 0x45, 0x52, 0x4E, 0x45, 0x4C, 0x20, 0x20, 0x42, 0x49, 0x4E]   // KERNEL  BIN

  predicate Below(s: set<nat>, bound: nat) {
    forall c :: c in s ==> c < bound
  }

  /** Clusters a, a + 1, .., b - 1. */
  function Range(a: nat, b: nat): (r: seq<nat>)
    requires a <= b
    ensures |r| == b - a && forall i :: 0 <= i < |r| ==> r[i] == a + i
  {
    seq(b - a, i => a + i)
  }

  lemma {:induction false} LinkAt(fat: Bytes, start: nat, n: nat, c: nat)
    requires |fat| == FAT_SIZE && start + n <= END_CLUSTER && ChainAt(fat, start, n) && start <= c < start + n
    ensures FatEntry(fat, c) == LinkOf(c, start + n)
  {
  }

  lemma {:induction false} ChainCons(fat: Bytes, cluster: nat, next: nat, rest: seq<nat>)
    requires |fat| == FAT_SIZE && DataCluster(cluster) && FatEntry(fat, cluster) == next && Chain(fat, next, rest)
    ensures Chain(fat, cluster, [cluster] + rest)
  {
    assert ([cluster] + rest)[1..] == rest;
  }

  lemma {:induction false} RangeCons(a: nat, b: nat)
    requires a < b
    ensures Range(a, b) == [a] + Range(a + 1, b)
  {
  }

  /** From a the links go up one by one and stop before b. */
  ghost predicate Leads(fat: Bytes, a: nat, b: nat)
    requires |fat| == FAT_SIZE && b <= END_CLUSTER
    decreases b - a
  {
    a < b && FatEntry(fat, a) == LinkOf(a, b) && (a + 1 < b ==> Leads(fat, a + 1, b))
  }

  lemma {:induction false} ChainAtLeads(fat: Bytes, start: nat, n: nat, k: nat)
    requires |fat| == FAT_SIZE && k < n && start + n <= END_CLUSTER && ChainAt(fat, start, n)
    ensures Leads(fat, start + k, start + n)
    decreases n - k
  {
    LinkAt(fat, start, n, start + k);
    if k + 1 < n { ChainAtLeads(fat, start, n, k + 1); }
  }

  lemma {:induction false} LeadsAlongRange(fat: Bytes, a: nat, b: nat)
    requires |fat| == FAT_SIZE && 2 <= a && b <= END_CLUSTER && Leads(fat, a, b)
    ensures Chain(fat, a, Range(a, b))
    decreases b - a
  {
    RangeCons(a, b);
    if a + 1 < b {
      LeadsAlongRange(fat, a + 1, b);
      ChainCons(fat, a, a + 1, Range(a + 1, b));
    } else {
      ChainCons(fat, a, END_OF_CHAIN, Range(b, b));
    }
  }

  /** The stored links lead through the file's clusters in order and stop. */
  lemma {:induction false} ChainIsRange(fat: Bytes, start: nat, n: nat)
    requires |fat| == FAT_SIZE && start >= 2 && n > 0 && start + n <= END_CLUSTER && ChainAt(fat, start, n)
    ensures Chain(fat, start, Range(start, start + n))
  {
    ChainAtLeads(fat, start, n, 0);
    LeadsAlongRange(fat, start, start + n);
  }

  lemma {:induction false} RangeBytes(image: Bytes, start: nat, n: nat)
    requires |image| == IMAGE_SIZE && start >= 2 && start + n <= END_CLUSTER
    ensures ChainBytes(image, Range(start, start + n)) == image[Base(start)..Base(start) + n * SECTOR]
  {
    if n > 0 {
      RangeBytes(image, start, n - 1);
      assert Range(start, start + n)[..n - 1] == Range(start, start + n - 1);
    }
  }

  lemma {:induction false} RangeHolds(image: Bytes, file: File, start: nat)
    requires |image| == IMAGE_SIZE && start >= 2 && start + Clusters(|file.content|) <= END_CLUSTER
    requires DataAt(image, file.content, start)
    ensures HoldsFile(image, file, Range(start, start + Clusters(|file.content|)))
  {
    var n := Clusters(|file.content|);
    RangeBytes(image, start, n);
    assert image[Base(start)..Base(start) + n * SECTOR][..|file.content|] == file.content;
  }

  /** Round trip for one file: its chain is its cluster range and its bytes come back. */
  lemma {:induction false} FileReadsBack(image: Bytes, file: File, index: nat, start: nat)
    requires |image| == IMAGE_SIZE && index < ROOT_ENTRIES && |file.content| > 0
    requires FileAt(image, Fat(image), file, index, start)
    ensures Chain(Fat(image), FirstCluster(Directory(image, index)), Range(start, start + Clusters(|file.content|)))
    ensures HoldsFile(image, file, Range(start, start + Clusters(|file.content|)))
  {
    ChainIsRange(Fat(image), start, Clusters(|file.content|));
    RangeHolds(image, file, start);
  }

  lemma {:induction false} RangeFollowed(fat: Bytes, a: nat, b: nat, seen: set<nat>)
    requires |fat| == FAT_SIZE && a <= b && Chain(fat, a, Range(a, b)) && Below(seen, a)
    ensures Follow(fat, a, seen) == Some(Range(a, b))
    ensures Below(seen + Elements(Range(a, b)), b)
  {
    FollowIsChain(fat, a, seen, Range(a, b));
  }

  lemma {:induction false} PlacedFileOk(image: Bytes, files: seq<File>, i: nat, seen: set<nat>) returns (now: set<nat>)
    requires |image| == IMAGE_SIZE && i < |files| <= ROOT_ENTRIES && |files[i].content| > 0
    requires Placed(image, Fat(image), files, |files|) && Below(seen, Start(files, i))
    ensures FileOk(image, files[i], i, seen, now) && Below(now, Start(files, i + 1))
  {
    var chain := Range(Start(files, i), Start(files, i + 1));
    assert PlacedAt(image, Fat(image), files, i);
    FileReadsBack(image, files[i], i, Start(files, i));
    RangeFollowed(Fat(image), Start(files, i), Start(files, i + 1), seen);
    now := seen + Elements(chain);
  }

  lemma {:induction false} PlacedIsAccepted(image: Bytes, files: seq<File>, i: nat, seen: set<nat>)
    requires |image| == IMAGE_SIZE && i <= |files| <= ROOT_ENTRIES
    requires NonEmpty(files, |files|)
    requires Placed(image, Fat(image), files, |files|) && Below(seen, Start(files, i))
    ensures FilesOk(image, files, i, seen)
    decreases |files| - i
  {
    if i == |files| {
      FilesOkEnd(image, files, seen);
    } else {
      var now := PlacedFileOk(image, files, i, seen);
      PlacedIsAccepted(image, files, i + 1, now);
      FilesOkNext(image, files, i, seen, now);
    }
  }

  /** Every finished image makes every assertion of the checker hold. */
  lemma {:induction false} FinishedIsAccepted(image: Bytes, boot: Bytes, files: seq<File>)
    requires BootOk(boot) && |files| <= ROOT_ENTRIES && Buildable(files) && Finished(image, boot, files)
    ensures HeaderOk(image) && FilesOk(image, files, 0, {})
  {
    assert image[510] == image[..SECTOR][510] && image[511] == image[..SECTOR][511];
    PlacedIsAccepted(image, files, 0, {});
  }

  /** The two-file floppy, with every assertion that can stop the build. */
  method BuildFloppy(boot: Bytes, loader: Bytes, kernel: Bytes) returns (r: Result<array<u8>, BuildError>)
    ensures r.Ok? <==>
      BootOk(boot) && ParametersOk(boot) && |loader| < 65536 &&
        Buildable([File(LOADER_NAME, loader), File(KERNEL_NAME, kernel)])
    ensures r.Ok? ==> Finished(r.value[..], boot, [File(LOADER_NAME, loader), File(KERNEL_NAME, kernel)])
    ensures !BootOk(boot) ==> r == Err(BadBootSector)
    ensures BootOk(boot) && !ParametersOk(boot) ==> r == Err(BadParameterBlock)
    ensures BootOk(boot) && ParametersOk(boot) && !(0 < |loader| < 65536) ==> r == Err(LoaderSize)
    ensures BootOk(boot) && ParametersOk(boot) && 0 < |loader| < 65536 && r.Err? ==>
      StopsAt([File(LOADER_NAME, loader), File(KERNEL_NAME, kernel)], r.error)
  {
    if !(|boot| == SECTOR && boot[510] == 0x55 && boot[511] == 0xAA) {
      return Err(BadBootSector);
    }
    if boot[11..28] != PARAMETERS {
      return Err(BadParameterBlock);
    }
    var files := [File(LOADER_NAME, loader), File(KERNEL_NAME, kernel)];
    assert files[0].content == loader;
    if !(0 < |loader| < 65536) {
      return Err(LoaderSize);
    }
    r := Build(boot, files);
    if r.Ok? {
      FinishedIsAccepted(r.value[..], boot, files);
      var ok := Check(r.value[..], files);
      assert ok;
    }
  }

  // ---------- the parameter block and the image in numbers

  lemma {:induction false} WordIs(b: Bytes, at: nat, value: u16)
    requires at + 2 <= |b|
    ensures Get16(b, at) == value <==> b[at] == value % 0x100 && b[at + 1] == value / 0x100
  {
    TwoBytes(b[at..at + 2]);
  }

  lemma {:induction false} ParameterBytes(boot: Bytes)
    requires |boot| == SECTOR
    ensures ParametersOk(boot) <==>
      && boot[11] == 0 && boot[12] == 2 && boot[13] == 1 && boot[14] == 1 && boot[15] == 0 && boot[16] == 2
      && boot[17] == 224 && boot[18] == 0 && boot[19] == 0x40 && boot[20] == 0x0B && boot[21] == 0xF0
      && boot[22] == 9 && boot[23] == 0 && boot[24] == 18 && boot[25] == 0 && boot[26] == 2 && boot[27] == 0
  {
    var block := boot[11..28];
    assert block == [boot[11], boot[12], boot[13], boot[14], boot[15], boot[16], boot[17], boot[18], boot[19],
                     boot[20], boot[21], boot[22], boot[23], boot[24], boot[25], boot[26], boot[27]];
    assert ParametersOk(boot) ==> forall k :: 0 <= k < 17 ==> block[k] == PARAMETERS[k];
  }

  /** What the builder insists on in the boot sector: the geometry that its own layout, and the loader's, is made of. */
  lemma {:induction false} ParametersMean(boot: Bytes)
    requires |boot| == 512
    ensures ParametersOk(boot) <==>
      && Get16(boot, 11) == 512 && boot[13] == 1 && Get16(boot, 14) == 1 && boot[16] == 2 && Get16(boot, 17) == 224
      && Get16(boot, 19) == 2880 && boot[21] == 0xF0 && Get16(boot, 22) == 9 && Get16(boot, 24) == 18
      && Get16(boot, 26) == 2
    ensures ParametersOk(boot) ==>
      && SECTOR == Get16(boot, 11) && FAT_SIZE == Get16(boot, 22) * SECTOR && ROOT_ENTRIES == Get16(boot, 17)
      && ROOT == (Get16(boot, 14) + boot[16] * Get16(boot, 22)) * SECTOR && DATA == ROOT + 32 * ROOT_ENTRIES
      && IMAGE_SIZE == Get16(boot, 19) * SECTOR && END_CLUSTER == 2 + (IMAGE_SIZE - DATA) / SECTOR
  {
    WordIs(boot, 11, 512);
    WordIs(boot, 14, 1);
    WordIs(boot, 17, 224);
    WordIs(boot, 19, 2880);
    WordIs(boot, 22, 9);
    WordIs(boot, 24, 18);
    WordIs(boot, 26, 2);
    ParameterBytes(boot);
  }

  /** The directory entry of a file in a finished image, all 32 bytes. */
  lemma {:induction false} EntryInImage(image: Bytes, boot: Bytes, files: seq<File>, i: nat)
    requires i < |files| <= ROOT_ENTRIES && Finished(image, boot, files)
    ensures var at := 9728 + 32 * i;
      && image[at..at + 11] == files[i].name && image[at + 11] == 0x20
      && (forall k :: at + 12 <= k < at + 26 ==> image[k] == 0)
      && Get16(image, at + 26) == Start(files, i) && Get32(image, at + 28) == |files[i].content|
  {
    assert PlacedAt(image, Fat(image), files, i);
    EntryBytes(image, i);
    assert forall k :: 0 <= k < 32 ==> Directory(image, i)[k] == image[9728 + 32 * i + k];
  }

  /** Its bytes: back to back from cluster 2 on, in no cluster more than they need. */
  lemma {:induction false} FileInImage(image: Bytes, boot: Bytes, files: seq<File>, i: nat)
    requires i < |files| <= ROOT_ENTRIES && Finished(image, boot, files)
    ensures Start(files, 0) == 2
    ensures var start, end := Start(files, i), Start(files, i + 1);
      && |files[i].content| <= (end - start) * 512 < |files[i].content| + 512 && 2 <= start && end <= 2849
      && (forall b :: 0 <= b < |files[i].content| ==> image[16896 + (start - 2) * 512 + b] == files[i].content[b])
  {
    assert PlacedAt(image, Fat(image), files, i);
    var start, content := Start(files, i), files[i].content;
    ClustersEnough(|content|);
    forall b | 0 <= b < |content|
      ensures image[16896 + (start - 2) * 512 + b] == content[b]
    {
      assert image[Base(start)..Base(start) + |content|][b] == content[b];
    }
  }

  /** Its links: from each cluster to the next one, the last link 0xFFF; links of no file are zero. */
  lemma {:induction false} LinksInImage(image: Bytes, boot: Bytes, files: seq<File>, i: nat, c: nat)
    requires i < |files| <= ROOT_ENTRIES && Finished(image, boot, files)
    ensures Start(files, i) <= c < Start(files, i + 1) && c < 2849 ==>
      FatEntry(Fat(image), c) == if c + 1 == Start(files, i + 1) then 0xFFF else c + 1
    ensures Start(files, |files|) <= c < 2849 ==> FatEntry(Fat(image), c) == 0
  {
    assert PlacedAt(image, Fat(image), files, i);
    if Start(files, i) <= c < Start(files, i + 1) {
      LinkAt(Fat(image), Start(files, i), Clusters(|files[i].content|), c);
    }
  }

  // ---------- reading it back

  /** The media descriptor and the reserved entry survive the whole build. */
  lemma {:induction false} MediaSurvives(image: Bytes, boot: Bytes, files: seq<File>)
    requires |files| <= ROOT_ENTRIES && Finished(image, boot, files)
    ensures FatEntry(Fat(image), 0) == 0xFF0 && FatEntry(Fat(image), 1) == 0xFFF
  {
    var fat := Fat(image);
    assert fat[0] == fat[..3][0] && fat[1] == fat[..3][1] && fat[2] == fat[..3][2];
    assert FatEntry(fat, 0) == 0xFF0 && FatEntry(fat, 1) == 0xFFF;
  }
}
