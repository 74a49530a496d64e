/** `check`: reading the files back out of a finished image, for every possible byte string. */
module ImageChecker {
  import opened Prelude
  import opened ByteMemory
  import opened Fat12

  function DataClusters(): set<nat> {
    set c: nat | 2 <= c < END_CLUSTER && DataCluster(c)
  }

  /** The links followed from `cluster`, refusing anything outside the data area or already seen. */
  ghost function Follow(fat: Bytes, cluster: nat, seen: set<nat>): (r: Option<seq<nat>>)
    requires |fat| == FAT_SIZE
    decreases DataClusters() - seen
  {
    if cluster >= 0xFF8 then Some([])
    else if !DataCluster(cluster) || cluster in seen then None
    else
      assert cluster in DataClusters() - seen;
      match Follow(fat, FatEntry(fat, cluster), seen + {cluster})
      case None => None
      case Some(rest) => Some([cluster] + rest)
  }

  ghost function Elements(s: seq<nat>): set<nat> {
    set c | c in s
  }

  lemma {:induction false} ConsDistinct(chain: seq<nat>, seen: set<nat>)
    requires chain != [] && chain[0] !in seen
    ensures Distinct(chain) && Elements(chain) !! seen <==>
      Distinct(chain[1..]) && Elements(chain[1..]) !! seen + {chain[0]}
  {
    assert forall i :: 1 <= i < |chain| ==> chain[i] == chain[1..][i - 1];
    if Distinct(chain) && Elements(chain) !! seen {
      forall c | c in Elements(chain[1..])
        ensures c !in seen + {chain[0]}
      {
        var i :| 0 <= i < |chain[1..]| && chain[1..][i] == c;
        assert chain[i + 1] == c && c in Elements(chain);
      }
      forall i, j | 0 <= i < j < |chain[1..]|
        ensures chain[1..][i] != chain[1..][j]
      {
        assert chain[i + 1] != chain[j + 1];
      }
    }
    if Distinct(chain[1..]) && Elements(chain[1..]) !! seen + {chain[0]} {
      forall i, j | 0 <= i < j < |chain|
        ensures chain[i] != chain[j]
      {
        assert chain[j] == chain[1..][j - 1] && chain[j] in Elements(chain[1..]);
      }
      forall c | c in Elements(chain)
        ensures c !in seen
      {
        var i :| 0 <= i < |chain| && chain[i] == c;
        if i > 0 { assert c in Elements(chain[1..]); }
      }
    }
  }

  /** Following succeeds exactly on the chains that end, stay in the data area and never revisit a cluster. */
  lemma {:induction false} FollowIsChain(fat: Bytes, cluster: nat, seen: set<nat>, chain: seq<nat>)
    requires |fat| == FAT_SIZE
    ensures Follow(fat, cluster, seen) == Some(chain) <==>
      Chain(fat, cluster, chain) && Distinct(chain) && Elements(chain) !! seen
    decreases DataClusters() - seen
  {
    if cluster >= 0xFF8 || !DataCluster(cluster) || cluster in seen {
      if chain != [] { assert chain[0] in Elements(chain); }
    } else {
      assert cluster in DataClusters() - seen;
      var next := FatEntry(fat, cluster);
      if chain != [] && chain[0] == cluster {
        FollowIsChain(fat, next, seen + {cluster}, chain[1..]);
        assert chain == [cluster] + chain[1..];
        ConsDistinct(chain, seen);
      }
    }
  }

  /** A chain is determined by its first cluster. */
  lemma {:induction false} ChainUnique(fat: Bytes, cluster: nat, a: seq<nat>, b: seq<nat>)
    requires |fat| == FAT_SIZE && Chain(fat, cluster, a) && Chain(fat, cluster, b)
    ensures a == b
    decreases |a|
  {
    if a != [] && b != [] {
      ChainUnique(fat, FatEntry(fat, cluster), a[1..], b[1..]);
      assert a == [a[0]] + a[1..] && b == [b[0]] + b[1..];
    }
  }

  // ---------- what the checker demands

  predicate HeaderOk(image: Bytes) {
    |image| == IMAGE_SIZE && image[510] == 0x55 && image[511] == 0xAA && Fat(image) == SecondFat(image)
  }

  /** Directory entry `index` names the file and gives its size. */
  predicate EntryOk(image: Bytes, file: File, index: nat)
    requires |image| == IMAGE_SIZE && index < ROOT_ENTRIES
  {
    Directory(image, index)[..11] == file.name && FileSize(Directory(image, index)) == |file.content|
  }

  /** These clusters hold the file, with no cluster to spare. */
  predicate HoldsFile(image: Bytes, file: File, chain: seq<nat>)
    requires |image| == IMAGE_SIZE
  {
    && |chain| == Clusters(|file.content|)
    && (forall i :: 0 <= i < |chain| ==> DataCluster(chain[i]))
    && file.content <= ChainBytes(image, chain)
  }

  /** From file `index` on, with the clusters of earlier files already seen. */
  ghost predicate FilesOk(image: Bytes, files: seq<File>, index: nat, seen: set<nat>)
    requires |image| == IMAGE_SIZE && |files| <= ROOT_ENTRIES && index <= |files|
    decreases |files| - index
  {
    index == |files| ||
    (EntryOk(image, files[index], index) &&
      match Follow(Fat(image), FirstCluster(Directory(image, index)), seen)
      case None => false
      case Some(chain) =>
        HoldsFile(image, files[index], chain) && FilesOk(image, files, index + 1, seen + Elements(chain)))
  }

  // ---------- the loops

  lemma {:induction false} FollowStep(fat: Bytes, cluster: nat, seen: set<nat>)
    requires |fat| == FAT_SIZE && cluster < 0xFF8 && DataCluster(cluster) && cluster !in seen
    ensures var next := Follow(fat, FatEntry(fat, cluster), seen + {cluster});
      Follow(fat, cluster, seen) == if next.None? then None else Some([cluster] + next.value)
  {
    assert cluster in DataClusters() - seen;
  }

  /** Having visited `visited`, the walk is now at `cluster` with `now` seen. */
  ghost predicate Walking(fat: Bytes, first: nat, seen: set<nat>, visited: seq<nat>, cluster: nat, now: set<nat>)
    requires |fat| == FAT_SIZE
  {
    && now == seen + Elements(visited)
    && var rest := Follow(fat, cluster, now);
      Follow(fat, first, seen) == if rest.None? then None else Some(visited + rest.value)
  }

  lemma {:induction false} WalkStarts(fat: Bytes, first: nat, seen: set<nat>)
    requires |fat| == FAT_SIZE
    ensures Walking(fat, first, seen, [], first, seen)
  {
    var rest := Follow(fat, first, seen);
    if rest.Some? { assert [] + rest.value == rest.value; }
  }

  lemma {:induction false} WalkSteps(
    fat: Bytes, first: nat, seen: set<nat>, visited: seq<nat>, cluster: nat, now: set<nat>)
    requires |fat| == FAT_SIZE && Walking(fat, first, seen, visited, cluster, now)
    requires cluster < 0xFF8 && DataCluster(cluster) && cluster !in now
    ensures Walking(fat, first, seen, visited + [cluster], FatEntry(fat, cluster), now + {cluster})
  {
    FollowStep(fat, cluster, now);
    var rest := Follow(fat, FatEntry(fat, cluster), now + {cluster});
    if rest.Some? { assert visited + ([cluster] + rest.value) == visited + [cluster] + rest.value; }
  }

  lemma {:induction false} WalkEnds(
    fat: Bytes, first: nat, seen: set<nat>, visited: seq<nat>, cluster: nat, now: set<nat>)
    requires |fat| == FAT_SIZE && Walking(fat, first, seen, visited, cluster, now) && cluster >= 0xFF8
    ensures Follow(fat, first, seen) == Some(visited) && now == seen + Elements(visited)
  {
    assert visited + [] == visited;
  }

  lemma {:induction false} ChainBytesAppend(image: Bytes, chain: seq<nat>, cluster: nat)
    requires |image| == IMAGE_SIZE && DataCluster(cluster) && forall i :: 0 <= i < |chain| ==> DataCluster(chain[i])
    ensures ChainBytes(image, chain + [cluster]) == ChainBytes(image, chain) + ClusterBytes(image, cluster)
  {
    assert (chain + [cluster])[..|chain|] == chain;
  }

  /** One file's inner loop: it terminates on every table, cyclic and cross-linked ones included. */
  method ReadChain(image: Bytes, first: nat, seen: set<nat>) returns (r: Option<(seq<nat>, Bytes, set<nat>)>)
    requires |image| == IMAGE_SIZE
    ensures r.Some? <==> Follow(Fat(image), first, seen).Some?
    ensures r.Some? ==> Follow(Fat(image), first, seen) == Some(r.value.0)
    ensures r.Some? ==> (forall i :: 0 <= i < |r.value.0| ==> DataCluster(r.value.0[i]))
    ensures r.Some? ==> r.value.1 == ChainBytes(image, r.value.0) && r.value.2 == seen + Elements(r.value.0)
  {
    var fat := Fat(image);
    var cluster: nat, now: set<nat>, visited: seq<nat>, result: Bytes := first, seen, [], [];
    WalkStarts(fat, first, seen);
    while cluster < 0xFF8
      invariant forall i :: 0 <= i < |visited| ==> DataCluster(visited[i])
      invariant result == ChainBytes(image, visited)
      invariant Walking(fat, first, seen, visited, cluster, now)
      decreases DataClusters() - now
    {
      if !(2 <= cluster < END_CLUSTER) || cluster in now {
        return None;
      }
      assert cluster in DataClusters() - now;
      WalkSteps(fat, first, seen, visited, cluster, now);
      ChainBytesAppend(image, visited, cluster);
      var start := DATA + (cluster - 2) * SECTOR;
      now := now + {cluster};
      result := result + image[start..start + SECTOR];
      visited := visited + [cluster];
      LookupIsEntry(fat, cluster);
      cluster := FatLookup(fat, cluster);
    }
    WalkEnds(fat, first, seen, visited, cluster, now);
    return Some((visited, result, now));
  }

  /** The demands on one file, with the clusters seen before and after it. */
  ghost predicate FileOk(image: Bytes, file: File, index: nat, seen: set<nat>, now: set<nat>)
    requires |image| == IMAGE_SIZE && index < ROOT_ENTRIES
  {
    EntryOk(image, file, index) &&
    var chain := Follow(Fat(image), FirstCluster(Directory(image, index)), seen);
    chain.Some? && HoldsFile(image, file, chain.value) && now == seen + Elements(chain.value)
  }

  lemma {:induction false} WholeClusters(size: nat, n: nat)
    ensures n * SECTOR == (size + SECTOR - 1) / SECTOR * SECTOR <==> n == Clusters(size)
    ensures n == Clusters(size) ==> size <= n * SECTOR
  {
  }

  /** The checker's two comparisons on the collected bytes decide whether the chain holds the file. */
  lemma {:induction false} HoldsDecided(image: Bytes, file: File, chain: seq<nat>)
    requires |image| == IMAGE_SIZE && forall i :: 0 <= i < |chain| ==> DataCluster(chain[i])
    ensures var result, size := ChainBytes(image, chain), |file.content|;
      HoldsFile(image, file, chain) <==>
        (if size <= |result| then result[..size] else result) == file.content &&
          |result| == (size + SECTOR - 1) / SECTOR * SECTOR
  {
    var result, size := ChainBytes(image, chain), |file.content|;
    WholeClusters(size, |chain|);
    if size <= |result| && result[..size] == file.content { assert file.content <= result; }
  }

  method CheckFile(image: Bytes, file: File, index: nat, seen: set<nat>) returns (r: Option<set<nat>>)
    requires |image| == IMAGE_SIZE && index < ROOT_ENTRIES
    ensures r.Some? ==> FileOk(image, file, index, seen, r.value)
    ensures r.None? ==> forall now :: !FileOk(image, file, index, seen, now)
  {
    var expected := file.content;
    var entry := Directory(image, index);
    if entry[..11] != file.name {
      return None;
    }
    var size := FileSize(entry);
    if size != |expected| {
      return None;
    }
    var read := ReadChain(image, FirstCluster(entry), seen);
    if read.None? {
      return None;
    }
    var (chain, result, now) := read.value;
    HoldsDecided(image, file, chain);
    if (if size <= |result| then result[..size] else result) != expected {
      return None;
    }
    if |result| != (size + SECTOR - 1) / SECTOR * SECTOR {
      return None;
    }
    return Some(now);
  }

  lemma {:induction false} FilesOkNext(image: Bytes, files: seq<File>, index: nat, seen: set<nat>, now: set<nat>)
    requires |image| == IMAGE_SIZE && index < |files| <= ROOT_ENTRIES
    requires FileOk(image, files[index], index, seen, now)
    ensures FilesOk(image, files, index, seen) == FilesOk(image, files, index + 1, now)
  {
  }

  lemma {:induction false} FilesOkEnd(image: Bytes, files: seq<File>, seen: set<nat>)
    requires |image| == IMAGE_SIZE && |files| <= ROOT_ENTRIES
    ensures FilesOk(image, files, |files|, seen)
  {
  }

  lemma {:induction false} FilesOkStops(image: Bytes, files: seq<File>, index: nat, seen: set<nat>)
    requires |image| == IMAGE_SIZE && index < |files| <= ROOT_ENTRIES
    requires forall now :: !FileOk(image, files[index], index, seen, now)
    ensures !FilesOk(image, files, index, seen)
  {
    var chain := Follow(Fat(image), FirstCluster(Directory(image, index)), seen);
    if chain.Some? { assert !FileOk(image, files[index], index, seen, seen + Elements(chain.value)); }
  }

  /** The checker decides exactly the demands above. */
  method Check(image: Bytes, files: seq<File>) returns (ok: bool)
    requires |files| <= ROOT_ENTRIES
    ensures ok <==> HeaderOk(image) && FilesOk(image, files, 0, {})
  {
    if !(|image| == IMAGE_SIZE && image[510] == 0x55 && image[511] == 0xAA) {
      return false;
    }
    if Fat(image) != SecondFat(image) {
      return false;
    }
    var seen: set<nat> := {};
    for index := 0 to |files|
      invariant FilesOk(image, files, 0, {}) == FilesOk(image, files, index, seen)
    {
      var now := CheckFile(image, files[index], index, seen);
      if now.None? {
        FilesOkStops(image, files, index, seen);
        return false;
      }
      FilesOkNext(image, files, index, seen, now.value);
      seen := now.value;
    }
    return true;
  }

  // ---------- what acceptance means

  ghost predicate FileChain(image: Bytes, files: seq<File>, index: nat, chain: seq<nat>, seen: set<nat>)
    requires |image| == IMAGE_SIZE && index < |files| <= ROOT_ENTRIES
  {
    && EntryOk(image, files[index], index)
    && Chain(Fat(image), FirstCluster(Directory(image, index)), chain) && Distinct(chain) && Elements(chain) !! seen
    && HoldsFile(image, files[index], chain)
  }

  /** The files' chains, in order: each one ends, and no cluster is used twice anywhere. */
  ghost predicate Layout(image: Bytes, files: seq<File>, from: nat, chains: seq<seq<nat>>, seen: set<nat>)
    requires |image| == IMAGE_SIZE && |files| <= ROOT_ENTRIES && from <= |files|
  {
    && |chains| == |files| - from
    && (forall k :: 0 <= k < |chains| ==> FileChain(image, files, from + k, chains[k], seen))
    && (forall j, k :: 0 <= j < k < |chains| ==> Elements(chains[j]) !! Elements(chains[k]))
  }

  lemma {:induction false} LayoutAt(
    image: Bytes, files: seq<File>, from: nat, chains: seq<seq<nat>>, seen: set<nat>, k: nat)
    requires |image| == IMAGE_SIZE && from <= |files| <= ROOT_ENTRIES
    requires Layout(image, files, from, chains, seen) && k < |chains|
    ensures FileChain(image, files, from + k, chains[k], seen)
  {
  }

  lemma {:induction false} LayoutCons(
    image: Bytes, files: seq<File>, from: nat, chain: seq<nat>, rest: seq<seq<nat>>, seen: set<nat>)
    requires |image| == IMAGE_SIZE && from < |files| <= ROOT_ENTRIES
    requires FileChain(image, files, from, chain, seen)
    requires Layout(image, files, from + 1, rest, seen + Elements(chain))
    ensures Layout(image, files, from, [chain] + rest, seen)
  {
    var chains := [chain] + rest;
    forall k | 0 <= k < |chains|
      ensures FileChain(image, files, from + k, chains[k], seen)
    {
      if k > 0 { LayoutAt(image, files, from + 1, rest, seen + Elements(chain), k - 1); }
    }
    forall j, k | 0 <= j < k < |chains|
      ensures Elements(chains[j]) !! Elements(chains[k])
    {
      LayoutAt(image, files, from + 1, rest, seen + Elements(chain), k - 1);
      if j > 0 { assert Elements(rest[j - 1]) !! Elements(rest[k - 1]); }
    }
  }

  lemma {:induction false} AcceptedHasLayout(image: Bytes, files: seq<File>, from: nat, seen: set<nat>)
    returns (chains: seq<seq<nat>>)
    requires |image| == IMAGE_SIZE && |files| <= ROOT_ENTRIES && from <= |files|
    requires FilesOk(image, files, from, seen)
    ensures Layout(image, files, from, chains, seen)
    decreases |files| - from
  {
    if from == |files| {
      chains := [];
    } else {
      var first := FirstCluster(Directory(image, from));
      var chain := Follow(Fat(image), first, seen).value;
      FollowIsChain(Fat(image), first, seen, chain);
      var rest := AcceptedHasLayout(image, files, from + 1, seen + Elements(chain));
      chains := [chain] + rest;
      LayoutCons(image, files, from, chain, rest, seen);
    }
  }

  lemma {:induction false} LayoutIsAccepted(
    image: Bytes, files: seq<File>, from: nat, chains: seq<seq<nat>>, seen: set<nat>)
    requires |image| == IMAGE_SIZE && |files| <= ROOT_ENTRIES && from <= |files|
    requires Layout(image, files, from, chains, seen)
    ensures FilesOk(image, files, from, seen)
    decreases |files| - from
  {
    if from < |files| {
      var chain := chains[0];
      assert FileChain(image, files, from + 0, chain, seen);
      FollowIsChain(Fat(image), FirstCluster(Directory(image, from)), seen, chain);
      var rest := chains[1..];
      forall k | 0 <= k < |rest|
        ensures FileChain(image, files, from + 1 + k, rest[k], seen + Elements(chain))
      {
        assert FileChain(image, files, from + (k + 1), chains[k + 1], seen);
        assert Elements(chains[0]) !! Elements(chains[k + 1]);
      }
      LayoutIsAccepted(image, files, from + 1, rest, seen + Elements(chain));
    }
  }

  /**
   Acceptance is the existence of such a layout: acyclic, pairwise disjoint chains of exactly
   ceil(size / 512) clusters whose bytes begin with the file.
   */
  lemma {:induction false} AcceptedIsLayout(image: Bytes, files: seq<File>, from: nat, seen: set<nat>)
    requires |image| == IMAGE_SIZE && |files| <= ROOT_ENTRIES && from <= |files|
    ensures FilesOk(image, files, from, seen) <==> exists chains :: Layout(image, files, from, chains, seen)
    decreases |files| - from
  {
    if FilesOk(image, files, from, seen) {
      var chains := AcceptedHasLayout(image, files, from, seen);
    }
    if chains :| Layout(image, files, from, chains, seen) {
      LayoutIsAccepted(image, files, from, chains, seen);
    }
  }

  // ---------- acceptance in bytes

  /** The clusters hold the content, byte for byte, and there is not one too many. */
  ghost predicate ByteByByte(image: Bytes, content: Bytes, chain: seq<nat>)
    requires |image| == 1474560
  {
    && |content| <= |chain| * 512 < |content| + 512
    && (forall i :: 0 <= i < |chain| ==> 2 <= chain[i] < 2849)
    && forall b :: 0 <= b < |content| ==> image[16896 + (chain[b / 512] - 2) * 512 + b % 512] == content[b]
  }

  /** Name, first cluster and size as they stand in the directory, and the chain that the file fills. */
  ghost predicate EntryHolds(image: Bytes, index: nat, file: File, chain: seq<nat>)
    requires |image| == 1474560 && index < 224
  {
    var at := 9728 + 32 * index;
    && image[at..at + 11] == file.name && Get32(image, at + 28) == |file.content|
    && LinkByLink(image[512..5120], Get16(image, at + 26), chain)
    && ByteByByte(image, file.content, chain)
  }

  lemma {:induction false} ChainByteAt(image: Bytes, chain: seq<nat>, b: nat)
    requires |image| == IMAGE_SIZE && (forall i :: 0 <= i < |chain| ==> DataCluster(chain[i])) && b < |chain| * SECTOR
    ensures ChainBytes(image, chain)[b] == image[DATA + (chain[b / SECTOR] - 2) * SECTOR + b % SECTOR]
    decreases |chain|
  {
    var front := chain[..|chain| - 1];
    if b < |front| * SECTOR {
      ChainByteAt(image, front, b);
      assert front[b / SECTOR] == chain[b / SECTOR];
    } else {
      assert b / SECTOR == |chain| - 1;
      assert ChainBytes(image, chain)[b] == ClusterBytes(image, chain[|chain| - 1])[b - |front| * SECTOR];
    }
  }

  lemma {:induction false} BytesOfChain(image: Bytes, content: Bytes, chain: seq<nat>)
    requires |image| == IMAGE_SIZE && |content| <= |chain| * SECTOR
    requires forall i :: 0 <= i < |chain| ==> DataCluster(chain[i])
    ensures content <= ChainBytes(image, chain) <==>
      forall b :: 0 <= b < |content| ==> ChainBytes(image, chain)[b] == content[b]
  {
  }

  lemma {:induction false} HoldsByByte(image: Bytes, file: File, chain: seq<nat>)
    requires |image| == IMAGE_SIZE
    ensures HoldsFile(image, file, chain) <==> ByteByByte(image, file.content, chain)
  {
    ClustersEnough(|file.content|);
    if (forall i :: 0 <= i < |chain| ==> DataCluster(chain[i])) && |file.content| <= |chain| * SECTOR {
      BytesOfChain(image, file.content, chain);
      forall b | 0 <= b < |file.content|
        ensures ChainBytes(image, chain)[b] == image[16896 + (chain[b / 512] - 2) * 512 + b % 512]
      {
        ChainByteAt(image, chain, b);
      }
    } else {
      assert (forall i :: 0 <= i < |chain| ==> DataCluster(chain[i])) <==>
        (forall i :: 0 <= i < |chain| ==> 2 <= chain[i] < 2849);
    }
  }

  lemma {:induction false} EntryBytes(image: Bytes, index: nat)
    requires |image| == IMAGE_SIZE && index < ROOT_ENTRIES
    ensures var at := 9728 + 32 * index;
      && Directory(image, index)[..11] == image[at..at + 11]
      && FirstCluster(Directory(image, index)) == Get16(image, at + 26)
      && FileSize(Directory(image, index)) == Get32(image, at + 28)
  {
    var at := 9728 + 32 * index;
    SliceOfSlice(image, at, 32, 0, 11);
    SliceOfSlice(image, at, 32, 26, 2);
    SliceOfSlice(image, at, 32, 28, 4);
    assert Directory(image, index)[0..11] == Directory(image, index)[..11];
  }

  lemma {:induction false} FileChainMeans(image: Bytes, files: seq<File>, index: nat, chain: seq<nat>)
    requires |image| == IMAGE_SIZE && index < |files| <= ROOT_ENTRIES
    ensures FileChain(image, files, index, chain, {}) <==>
      EntryHolds(image, index, files[index], chain) && Distinct(chain)
  {
    EntryBytes(image, index);
    ChainMeans(Fat(image), FirstCluster(Directory(image, index)), chain);
    HoldsByByte(image, files[index], chain);
  }

  /** Header and tables of an accepted image. */
  lemma {:induction false} HeaderMeans(image: Bytes)
    ensures HeaderOk(image) <==>
      && |image| == 1474560 && image[510] == 0x55 && image[511] == 0xAA
      && forall i :: 512 <= i < 5120 ==> image[i] == image[i + 4608]
  {
    if |image| == 1474560 {
      if Fat(image) == SecondFat(image) {
        forall i | 512 <= i < 5120
          ensures image[i] == image[i + 4608]
        {
          assert Fat(image)[i - 512] == SecondFat(image)[i - 512];
        }
      }
      if forall i :: 512 <= i < 5120 ==> image[i] == image[i + 4608] {
        forall i | 0 <= i < 4608
          ensures Fat(image)[i] == SecondFat(image)[i]
        {
          assert image[i + 512] == image[i + 512 + 4608];
        }
      }
    }
  }

  /** No two different places, or no two places at all, of two chains hold the same cluster. */
  ghost predicate Apart(a: seq<nat>, b: seq<nat>, same: bool) {
    forall i, j :: 0 <= i < |a| && 0 <= j < |b| && (same ==> i < j) ==> a[i] != b[j]
  }

  /** No cluster is in two places of the chains. */
  ghost predicate AllApart(chains: seq<seq<nat>>) {
    && (forall n :: 0 <= n < |chains| ==> Apart(chains[n], chains[n], true))
    && (forall n, m :: 0 <= n < m < |chains| ==> Apart(chains[n], chains[m], false))
  }

  lemma {:induction false} ElementsApart(a: seq<nat>, b: seq<nat>)
    ensures Elements(a) !! Elements(b) <==> Apart(a, b, false)
    ensures Distinct(a) <==> Apart(a, a, true)
  {
    if Elements(a) !! Elements(b) {
      forall i, j | 0 <= i < |a| && 0 <= j < |b|
        ensures a[i] != b[j]
      {
        assert a[i] in Elements(a) && b[j] in Elements(b);
      }
    }
  }

  ghost predicate HeldBy(image: Bytes, files: seq<File>, chains: seq<seq<nat>>)
    requires |image| == 1474560 && |files| <= 224
  {
    |chains| == |files| && forall n :: 0 <= n < |files| ==> EntryHolds(image, n, files[n], chains[n])
  }

  lemma {:induction false} LayoutMeans(image: Bytes, files: seq<File>, chains: seq<seq<nat>>)
    requires |image| == IMAGE_SIZE && |files| <= ROOT_ENTRIES
    ensures Layout(image, files, 0, chains, {}) <==> HeldBy(image, files, chains) && AllApart(chains)
  {
    if |chains| == |files| {
      forall n | 0 <= n < |files|
        ensures FileChain(image, files, 0 + n, chains[n], {}) <==>
          EntryHolds(image, n, files[n], chains[n]) && Apart(chains[n], chains[n], true)
      {
        FileChainMeans(image, files, n, chains[n]);
        ElementsApart(chains[n], chains[n]);
      }
      forall n, m | 0 <= n < m < |chains|
        ensures Elements(chains[n]) !! Elements(chains[m]) <==> Apart(chains[n], chains[m], false)
      {
        ElementsApart(chains[n], chains[m]);
      }
    }
  }

  /**
   What the checker passes, byte for byte: size, signature, two equal tables, and for every file an entry
   and a chain of data clusters through the table that hold its bytes and no cluster more, all chains apart.
   */
  lemma {:induction false} AcceptedMeans(image: Bytes, files: seq<File>)
    requires |files| <= 224
    ensures HeaderOk(image) && FilesOk(image, files, 0, {}) <==>
      && |image| == 1474560 && image[510] == 0x55 && image[511] == 0xAA
      && (forall i :: 512 <= i < 5120 ==> image[i] == image[i + 4608])
      && exists chains: seq<seq<nat>> :: HeldBy(image, files, chains) && AllApart(chains)
  {
    HeaderMeans(image);
    if |image| == 1474560 {
      AcceptedIsLayout(image, files, 0, {});
      forall chains: seq<seq<nat>>
        ensures Layout(image, files, 0, chains, {}) <==> HeldBy(image, files, chains) && AllApart(chains)
      {
        LayoutMeans(image, files, chains);
      }
    }
  }
}
