/** Byte strings in memory: whole-block writes, and little-endian values. */
module ByteMemory {
  import opened Prelude

  type Bytes = seq<u8>

  function Overwrite(s: Bytes, at: nat, block: Bytes): (r: Bytes)
    requires at + |block| <= |s|
    ensures |r| == |s|
  {
    s[..at] + block + s[at + |block|..]
  }

  lemma {:induction false} OverwriteKeeps(s: Bytes, at: nat, block: Bytes, lo: nat, hi: nat)
    requires at + |block| <= |s| && lo <= hi <= |s| && (hi <= at || at + |block| <= lo)
    ensures Overwrite(s, at, block)[lo..hi] == s[lo..hi]
  {
  }

  lemma {:induction false} OverwriteReads(s: Bytes, at: nat, block: Bytes, lo: nat, hi: nat)
    requires at + |block| <= |s| && lo <= hi <= |block|
    ensures Overwrite(s, at, block)[at + lo..at + hi] == block[lo..hi]
  {
  }

  /** Two neighbouring writes are one. */
  lemma {:induction false} OverwriteJoins(s: Bytes, at: nat, a: Bytes, b: Bytes)
    requires at + |a| + |b| <= |s|
    ensures Overwrite(Overwrite(s, at, a), at + |a|, b) == Overwrite(s, at, a + b)
  {
  }

  method WriteBlock(memory: array<u8>, at: nat, block: Bytes)
    requires at + |block| <= memory.Length
    modifies memory
    ensures memory[..] == Overwrite(old(memory[..]), at, block)
  {
    forall k | 0 <= k < |block| {
      memory[at + k] := block[k];
    }
  }

  // ---------- little-endian values

  /** The number whose lowest byte comes first. */
  function LittleEndian(b: Bytes): nat {
    if |b| == 0 then 0 else b[0] + 0x100 * LittleEndian(b[1..])
  }

  lemma {:induction false} TwoBytes(b: Bytes)
    requires |b| == 2
    ensures LittleEndian(b) == Word(b[0], b[1])
  {
    assert LittleEndian(b[1..][1..]) == 0;
  }

  lemma {:induction false} FourBytes(b: Bytes)
    requires |b| == 4
    ensures LittleEndian(b) == Word(b[0], b[1]) + 0x1_0000 * Word(b[2], b[3])
  {
    assert b[1..][1..] == b[2..];
    TwoBytes(b[2..]);
  }

  lemma {:induction false} FirstByte(b: Bytes, i: nat)
    requires i < |b|
    ensures LittleEndian(b[i..]) == b[i] + 0x100 * LittleEndian(b[i + 1..])
  {
    assert b[i..][1..] == b[i + 1..];
  }

  lemma {:induction false} EightBytes(b: Bytes)
    requires |b| == 8
    ensures LittleEndian(b) == LittleEndian(b[..4]) + 0x1_0000_0000 * LittleEndian(b[4..]) < TWO64
  {
    FourBytes(b[..4]);
    FourBytes(b[4..]);
    FirstByte(b, 0);
    FirstByte(b, 1);
    FirstByte(b, 2);
    FirstByte(b, 3);
    assert b[0..] == b;
  }

  function Get16(b: Bytes, at: nat): u16
    requires at + 2 <= |b|
  {
    TwoBytes(b[at..at + 2]);
    LittleEndian(b[at..at + 2])
  }

  function Get32(b: Bytes, at: nat): u32
    requires at + 4 <= |b|
  {
    FourBytes(b[at..at + 4]);
    LittleEndian(b[at..at + 4])
  }

  function Get64(b: Bytes, at: nat): u64
    requires at + 8 <= |b|
  {
    EightBytes(b[at..at + 8]);
    LittleEndian(b[at..at + 8])
  }

  function Le16(v: u16): (b: Bytes)
    ensures |b| == 2 && LittleEndian(b) == v
  {
    var b: Bytes := [v % 0x100, v / 0x100];
    TwoBytes(b);
    b
  }

  function Le32(v: u32): (b: Bytes)
    ensures |b| == 4 && LittleEndian(b) == v
  {
    var low, high := v % 0x1_0000, v / 0x1_0000;
    var b: Bytes := [low % 0x100, low / 0x100, high % 0x100, high / 0x100];
    FourBytes(b);
    b
  }

  predicate SameBytes(a: Bytes, b: Bytes, lo: nat, hi: nat)
    requires hi <= |a| && hi <= |b|
  {
    forall i :: lo <= i < hi ==> a[i] == b[i]
  }

  lemma {:induction false} WrittenElsewhere(s: Bytes, at: nat, block: Bytes, lo: nat, hi: nat)
    requires at + |block| <= |s| && lo <= hi <= |s| && (hi <= at || at + |block| <= lo)
    ensures SameBytes(Overwrite(s, at, block), s, lo, hi)
  {
  }

  /** Values of a stretch of memory are values of the bytes cut out. */
  lemma {:induction false} SliceOfSlice(b: Bytes, from: nat, size: nat, at: nat, n: nat)
    requires from + size <= |b| && at + n <= size
    ensures b[from..from + size][at..at + n] == b[from + at..from + at + n]
  {
    var cut := b[from..from + size];
    var left, right := cut[at..at + n], b[from + at..from + at + n];
    forall i | 0 <= i < n
      ensures left[i] == right[i]
    {
      assert left[i] == cut[at + i];
    }
  }

  lemma {:induction false} SameSlice(a: Bytes, b: Bytes, lo: nat, hi: nat, from: nat, to: nat)
    requires hi <= |a| && hi <= |b| && SameBytes(a, b, lo, hi) && lo <= from <= to <= hi
    ensures a[from..to] == b[from..to]
  {
    var left, right := a[from..to], b[from..to];
    forall i | 0 <= i < to - from
      ensures left[i] == right[i]
    {
      assert a[from + i] == b[from + i];
    }
  }

  lemma {:induction false} Get16Written(s: Bytes, at: nat, v: u16)
    requires at + 2 <= |s|
    ensures Get16(Overwrite(s, at, Le16(v)), at) == v
  {
    assert Overwrite(s, at, Le16(v))[at..at + 2] == Le16(v);
  }

  lemma {:induction false} Get32Written(s: Bytes, at: nat, v: u32)
    requires at + 4 <= |s|
    ensures Get32(Overwrite(s, at, Le32(v)), at) == v
  {
    assert Overwrite(s, at, Le32(v))[at..at + 4] == Le32(v);
  }
}
