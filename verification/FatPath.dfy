/** A file on a FAT volume, described by its clusters and the bytes on the disk. */
module FatPath {
  import opened Words
  import opened Arith
  import opened Fat

  /** Byte `i` of the FAT. */
  function FatByte(v: Volume, i: nat): nat {
    if v.fatStart + i < |v.disk| then v.disk[v.fatStart + i] else 0
  }

  /** The FAT entry of cluster `c` is `e`: two bytes, four bytes, or half of a group of three bytes that holds
      two entries; low byte first. */
  predicate Names(v: Volume, c: nat, e: nat) {
    if v.fatSize == 4 then e == FatByte(v, 2 * c) + 0x100 * FatByte(v, 2 * c + 1)
    else if v.fatSize == 8 then
      e == FatByte(v, 4 * c) + 0x100 * FatByte(v, 4 * c + 1) + 0x1_0000 * FatByte(v, 4 * c + 2)
           + 0x100_0000 * FatByte(v, 4 * c + 3)
    else
      var at := c / 2 * 3;
      if c % 2 == 0 then e == FatByte(v, at) + 0x100 * (FatByte(v, at + 1) % 16)
      else e == FatByte(v, at + 1) / 16 + 0x10 * FatByte(v, at + 2)
  }

  lemma TwoBytes(s: seq<Byte>, b: nat)
    requires b + 2 <= |s|
    ensures Nibbles(s, 2 * b, 4) == s[b] as int + 0x100 * s[b + 1] as int
  {
    hide Nibble, Nibbles;
    NibblesCons(s, 2 * b, 4);
    NibblesCons(s, 2 * b + 1, 3);
    NibblesCons(s, 2 * b + 2, 2);
    NibblesCons(s, 2 * b + 3, 1);
    NoNibbles(s, 2 * b + 4);
    BytePair(s, b);
    BytePair(s, b + 1);
  }

  lemma FirstHalf(s: seq<Byte>, b: nat)
    requires b + 2 <= |s|
    ensures Nibbles(s, 2 * b, 3) == s[b] as int + 0x100 * (s[b + 1] as int % 16)
  {
    hide Nibble, Nibbles;
    NibblesCons(s, 2 * b, 3);
    NibblesCons(s, 2 * b + 1, 2);
    NibblesCons(s, 2 * b + 2, 1);
    NoNibbles(s, 2 * b + 3);
    BytePair(s, b);
    LowHalf(s, b + 1);
  }

  lemma SecondHalf(s: seq<Byte>, b: nat)
    requires b + 2 <= |s|
    ensures Nibbles(s, 2 * b + 1, 3) == s[b] as int / 16 + 0x10 * s[b + 1] as int
  {
    hide Nibble, Nibbles;
    NibblesCons(s, 2 * b + 1, 3);
    NibblesCons(s, 2 * b + 2, 2);
    NibblesCons(s, 2 * b + 3, 1);
    NoNibbles(s, 2 * b + 4);
    BytePair(s, b + 1);
    LowHalf(s, b);
  }

  lemma LowHalf(s: seq<Byte>, b: nat)
    requires b < |s|
    ensures Nibble(s, 2 * b) == s[b] % 16 && Nibble(s, 2 * b + 1) == s[b] / 16
  {
  }

  lemma FatBytes(v: Volume, i: nat)
    requires v.fatStart + i < |v.disk|
    ensures FatByte(v, i) == v.disk[v.fatStart + i]
  {
  }

  lemma NamedWide(v: Volume, c: nat)
    requires v.fatSize in {4, 8} && 2 * v.fatStart + v.EntryAt(c) + v.fatSize <= 2 * |v.disk|
    ensures Names(v, c, Nibbles(v.disk, 2 * v.fatStart + v.EntryAt(c), v.fatSize))
  {
    hide Nibbles, FatByte, Volume.EntryAt;
    v.EntryIs(c);
    if v.fatSize == 4 {
      FatBytes(v, 2 * c);
      FatBytes(v, 2 * c + 1);
      TwoBytes(v.disk, v.fatStart + 2 * c);
      assert 2 * (v.fatStart + 2 * c) == 2 * v.fatStart + v.EntryAt(c);
    } else {
      FatBytes(v, 4 * c);
      FatBytes(v, 4 * c + 1);
      FatBytes(v, 4 * c + 2);
      FatBytes(v, 4 * c + 3);
      WordNibbles(v.disk, v.fatStart + 4 * c);
      assert 2 * (v.fatStart + 4 * c) == 2 * v.fatStart + v.EntryAt(c);
    }
  }

  lemma NamedNarrow(v: Volume, c: nat)
    requires v.fatSize == 3 && 2 * v.fatStart + v.EntryAt(c) + 3 <= 2 * |v.disk|
    ensures Names(v, c, Nibbles(v.disk, 2 * v.fatStart + v.EntryAt(c), v.fatSize))
  {
    hide Nibbles, FatByte;
    var m := c / 2;
    Thirds(c, m, v.EntryAt(c));
    FatBytes(v, 3 * m + 1);
    if c % 2 == 0 {
      FatBytes(v, 3 * m);
      FirstHalf(v.disk, v.fatStart + 3 * m);
    } else {
      FatBytes(v, 3 * m + 2);
      SecondHalf(v.disk, v.fatStart + 3 * m + 1);
    }
  }

  /** The entry that the program takes is the one that the format puts there. */
  lemma EntryNamed(v: Volume, c: nat)
    requires v.Valid() && c < v.numClust
    ensures Names(v, c, v.Entry(c))
  {
    hide Names, Nibbles;
    v.EntryOnDisk(c);
    if v.fatSize == 3 {
      NamedNarrow(v, c);
    } else {
      NamedWide(v, c);
    }
  }

  lemma OnlyOne(v: Volume, c: nat, d: nat, e: nat)
    requires Names(v, c, d) && Names(v, c, e)
    ensures d == e
  {
  }

  /** `q` are the clusters of a file, each linked to the next by its entry, the last one marked as such. */
  ghost predicate Path(v: Volume, q: seq<nat>) {
    Linked(v, q) && Ends(v, q[|q| - 1])
  }

  ghost predicate Linked(v: Volume, q: seq<nat>) {
    && q != [] && (forall i :: 0 <= i < |q| ==> 2 <= q[i] < v.numClust)
    && (forall i {:trigger q[i]} :: 0 <= i < |q| - 1 ==> Names(v, q[i], q[i + 1]) && q[i + 1] < v.eofMarker)
  }

  /** The entry of cluster `c` marks the end of a file. */
  ghost predicate Ends(v: Volume, c: nat) {
    exists e: nat :: e >= v.eofMarker && Names(v, c, e)
  }

  /** The data of the clusters: cluster 2 is the first of the data area, and each one lies behind the one
      before. */
  function DataOf(v: Volume, q: seq<nat>): seq<Byte>
    requires v.Valid() && forall i :: 0 <= i < |q| ==> 2 <= q[i] < v.numClust
  {
    if q == [] then []
    else
      var last := q[|q| - 1];
      InArea(v, last);
      DataOf(v, q[..|q| - 1]) + v.disk[v.dataStart..][(last - 2) * v.clusterSize..][..v.clusterSize]
  }

  lemma EndMark(v: Volume, c: nat) returns (e: nat)
    requires Ends(v, c)
    ensures e >= v.eofMarker && Names(v, c, e)
  {
    e :| e >= v.eofMarker && Names(v, c, e);
  }

  lemma Product(a: nat, b: nat)
    ensures a * b >= 0
  {
  }

  lemma InArea(v: Volume, c: nat)
    requires v.Valid() && 2 <= c < v.numClust
    ensures v.dataStart <= |v.disk| && 0 <= (c - 2) * v.clusterSize
    ensures (c - 2) * v.clusterSize + v.clusterSize <= |v.disk| - v.dataStart
    ensures v.DataAt(c) == v.dataStart + (c - 2) * v.clusterSize
  {
    v.ClusterFits(c);
    Product(c - 2, v.clusterSize);
  }

  /** The chain that the program follows is the path. */
  lemma {:induction false} PathIsChain(v: Volume, q: seq<nat>, k: nat)
    requires v.Valid() && Path(v, q)
    ensures v.Chain(q[0], k) == if k < |q| then At(q[k]) else Eof
    decreases k
  {
    hide Names, v.Valid, v.Entry;
    if k > 0 {
      PathIsChain(v, q, k - 1);
      if k <= |q| {
        EntryNamed(v, q[k - 1]);
        if k < |q| {
          OnlyOne(v, q[k - 1], v.Entry(q[k - 1]), q[k]);
        } else {
          var e := EndMark(v, q[k - 1]);
          OnlyOne(v, q[k - 1], v.Entry(q[k - 1]), e);
        }
      }
    }
  }

  /** Where an entry below the end mark names no cluster the chain is damaged, and up to there it is the
      clusters named. */
  lemma {:induction false} DamagedBehind(v: Volume, q: seq<nat>, e: nat, k: nat)
    requires v.Valid() && Linked(v, q) && Names(v, q[|q| - 1], e) && e < v.eofMarker && (e < 2 || e >= v.numClust)
    ensures 2 <= q[0] < v.numClust && v.Chain(q[0], k) == if k < |q| then At(q[k]) else Corrupt
    decreases k
  {
    hide Names, v.Valid, v.Entry, Linked;
    assert q != [] by { LinkedSome(v, q); }
    LinkedAt(v, q, 0);
    if k > 0 {
      DamagedBehind(v, q, e, k - 1);
      if k <= |q| {
        EntryNamed(v, q[k - 1]);
        LinkedAt(v, q, k - 1);
        OnlyOne(v, q[k - 1], v.Entry(q[k - 1]), if k < |q| then q[k] else e);
        if k < |q| {
          LinkedAt(v, q, k);
        }
      }
    }
  }

  lemma LinkedSome(v: Volume, q: seq<nat>)
    requires Linked(v, q)
    ensures q != []
  {
    hide Names;
  }

  lemma LinkedAt(v: Volume, q: seq<nat>, i: nat)
    requires Linked(v, q) && i < |q|
    ensures 2 <= q[i] < v.numClust && (i + 1 < |q| ==> Names(v, q[i], q[i + 1]) && q[i + 1] < v.eofMarker)
  {
    hide Names;
  }

  lemma {:induction false} DataLength(v: Volume, q: seq<nat>)
    requires v.Valid() && forall i :: 0 <= i < |q| ==> 2 <= q[i] < v.numClust
    ensures |DataOf(v, q)| == |q| * v.clusterSize
    decreases |q|
  {
    hide v.Valid;
    if q != [] {
      DataLength(v, q[..|q| - 1]);
      InArea(v, q[|q| - 1]);
      assert |q| * v.clusterSize == (|q| - 1) * v.clusterSize + v.clusterSize;
    }
  }

  /** Byte `j` of the `k`-th cluster. */
  lemma {:induction false} DataByte(v: Volume, q: seq<nat>, k: nat, j: nat)
    requires v.Valid() && (forall i :: 0 <= i < |q| ==> 2 <= q[i] < v.numClust) && k < |q| && j < v.clusterSize
    ensures k * v.clusterSize + j < |DataOf(v, q)| && v.DataAt(q[k]) + j < |v.disk|
    ensures DataOf(v, q)[k * v.clusterSize + j] == v.disk[v.DataAt(q[k]) + j]
    decreases |q|
  {
    hide v.Valid, v.DataAt;
    var n := |q| - 1;
    InArea(v, q[n]);
    DataLength(v, q[..n]);
    if k < n {
      DataByte(v, q[..n], k, j);
    }
  }

  lemma FileByteIs(v: Volume, q: seq<nat>, p: nat)
    requires v.Valid() && Path(v, q)
    ensures v.FileByte(q[0], p) == if p < |DataOf(v, q)| then Some(DataOf(v, q)[p]) else None
  {
    hide v.Valid, v.DataAt, v.Chain, DataOf, Path;
    PathParts(v, q);
    var k, j := Place(p, v.clusterSize);
    PathIsChain(v, q, k);
    DataLength(v, q);
    if k < |q| {
      DataByte(v, q, k, j);
    } else {
      assert k * v.clusterSize >= |q| * v.clusterSize by {
        Product(k - |q|, v.clusterSize);
        assert (k - |q|) * v.clusterSize == k * v.clusterSize - |q| * v.clusterSize;
      }
    }
  }

  lemma PathParts(v: Volume, q: seq<nat>)
    requires v.Valid() && Path(v, q)
    ensures q != [] && (forall i :: 0 <= i < |q| ==> 2 <= q[i] < v.numClust) && v.clusterSize > 0
  {
  }

  lemma Place(p: nat, size: nat) returns (k: nat, j: nat)
    requires size > 0
    ensures k == p / size && j == p % size && p == k * size + j && j < size
  {
    DivNat(p, size);
    k, j := p / size, p % size;
  }

  /** The chain has ended where position `p` would be. */
  ghost predicate NoneAt(v: Volume, first: nat, p: nat)
    requires v.Valid() && 2 <= first < v.numClust
  {
    DivNat(p, v.clusterSize);
    v.Chain(first, p / v.clusterSize) == Eof
  }

  /** What a read returns of such a file: no damage is found, and the bytes are the slice of the data. */
  lemma ReadsFile(v: Volume, q: seq<nat>, p: nat, len: nat, data: seq<Byte>)
    requires v.Valid() && Path(v, q) && |data| <= len && v.Spells(q[0], p, data)
    requires |data| < len ==> NoneAt(v, q[0], p + |data|)
    ensures forall k: nat :: !v.Chain(q[0], k).Corrupt?
    ensures var f := DataOf(v, q);
            if p < |f| then data == f[p..Min(p + len, |f|)] else data == []
  {
    hide v.Valid, v.Chain, v.FileByte, DataOf, Path;
    PathParts(v, q);
    var f := DataOf(v, q);
    NeverCorrupt(v, q);
    forall i | 0 <= i < |data|
      ensures p + i < |f| && data[i] == f[p + i]
    {
      FileByteIs(v, q, p + i);
      SpeltAt(v, q[0], p, data, i);
    }
    if |data| < len {
      AtEnd(v, q, p + |data|);
    }
    if data != [] {
      FileByteIs(v, q, p + (|data| - 1));
      SpeltAt(v, q[0], p, data, |data| - 1);
    }
    EndOf(v, q, p, len, data);
  }

  lemma SpeltAt(v: Volume, first: nat, p: nat, s: seq<Byte>, i: nat)
    requires v.Valid() && 2 <= first < v.numClust && v.Spells(first, p, s) && i < |s|
    ensures v.FileByte(first, p + i) == Some(s[i])
  {
    hide v.Valid, v.FileByte;
  }

  lemma EndOf(v: Volume, q: seq<nat>, p: nat, len: nat, data: seq<Byte>)
    requires v.Valid() && forall i :: 0 <= i < |q| ==> 2 <= q[i] < v.numClust
    requires var f := DataOf(v, q);
             && |data| <= len && (|data| < len ==> p + |data| >= |f|) && (data != [] ==> p + |data| <= |f|)
             && forall i :: 0 <= i < |data| ==> p + i < |f| && data[i] == f[p + i]
    ensures var f := DataOf(v, q);
            if p < |f| then data == f[p..Min(p + len, |f|)] else data == []
  {
    hide v.Valid, DataOf;
    if data != [] {
      assert p + 0 < |DataOf(v, q)|;
    }
  }

  lemma AtEnd(v: Volume, q: seq<nat>, p: nat)
    requires v.Valid() && Path(v, q) && NoneAt(v, q[0], p)
    ensures p >= |DataOf(v, q)|
  {
    hide v.Valid, v.Chain, DataOf, Path;
    PathParts(v, q);
    var k, j := Place(p, v.clusterSize);
    PathIsChain(v, q, k);
    DataLength(v, q);
    assert k >= |q|;
    Product(k - |q|, v.clusterSize);
    assert (k - |q|) * v.clusterSize == k * v.clusterSize - |q| * v.clusterSize;
  }

  /** Reading such a file, whatever has been read of it before. */
  method ReadFile(f: FatFile, q: seq<nat>, len: nat) returns (data: seq<Byte>)
    requires f.Valid() && Path(f.vol, q) && q[0] == f.fileCluster
    modifies f, f.fatBuf
    ensures f.Valid() && f.filepos == old(f.filepos) + |data|
    ensures var all, p := DataOf(f.vol, q), old(f.filepos);
            if p < |all| then data == all[p..Min(p + len, |all|)] else data == []
  {
    hide Volume.Valid, Volume.Chain, Volume.FileByte, Volume.Spells, DataOf, FatFile.CacheOk, FatFile.Valid, Path;
    ghost var p := f.filepos;
    ghost var v := f.vol;
    FileShape(f);
    PathParts(v, q);
    var ret, corrupt;
    ret, data, corrupt := f.Read(len);
    if corrupt {
      NeverCorrupt(v, q);
    } else {
      EndedAt(v, q[0], p + |data|);
      ReadsFile(v, q, p, len, data);
    }
  }

  lemma FileShape(f: FatFile)
    requires f.Valid()
    ensures f.vol.Valid() && 2 <= f.fileCluster < f.vol.numClust
  {
  }

  lemma NeverCorrupt(v: Volume, q: seq<nat>)
    requires v.Valid() && Path(v, q)
    ensures forall k: nat :: !v.Chain(q[0], k).Corrupt?
  {
    forall k: nat
      ensures !v.Chain(q[0], k).Corrupt?
    {
      PathIsChain(v, q, k);
    }
  }

  lemma EndedAt(v: Volume, first: nat, p: nat)
    requires v.Valid() && 2 <= first < v.numClust
    ensures p / v.clusterSize >= 0
    ensures v.Chain(first, p / v.clusterSize) == Eof <==> NoneAt(v, first, p)
  {
    DivNat(p, v.clusterSize);
  }

  lemma Thirds(c: nat, m: nat, n: nat)
    requires m == c / 2 && n == c * 3
    ensures n == if c % 2 == 0 then 6 * m else 6 * m + 3
  {
  }
}
