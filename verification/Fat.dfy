/** Reading a file on a FAT12, FAT16 or FAT32 volume through the FAT cache and the cluster position cache. */
module Fat {
  import opened Words
  import opened Arith

  const FAT_CACHE_SIZE: nat := 2048
  const SECTOR_NIBBLES: nat := 1024

  /** Half byte number `n`, low half first. */
  function Nibble(s: seq<Byte>, n: nat): nat
    requires n / 2 < |s|
  {
    if n % 2 == 0 then s[n / 2] % 16 else s[n / 2] / 16
  }

  /** The number written in `k` half bytes from number `n` on. */
  function Nibbles(s: seq<Byte>, n: nat, k: nat): nat
    requires n + k <= 2 * |s|
    decreases k
  {
    if k == 0 then 0 else Nibble(s, n) + 16 * Nibbles(s, n + 1, k - 1)
  }

  function Pow16(k: nat): (p: nat)
    ensures p >= 1
  {
    if k == 0 then 1 else 16 * Pow16(k - 1)
  }

  lemma NibbleBelow(s: seq<Byte>, n: nat)
    requires n / 2 < |s|
    ensures Nibble(s, n) < 16
  {
  }

  /** Dropping the lowest half byte. */
  lemma NibblesShift(s: seq<Byte>, n: nat, k: nat)
    requires k > 0 && n + k <= 2 * |s|
    ensures Nibbles(s, n, k) / 16 == Nibbles(s, n + 1, k - 1)
  {
    NibbleBelow(s, n);
  }

  /** Masking all but the lowest `j` half bytes. */
  lemma {:induction false} NibblesMask(s: seq<Byte>, n: nat, k: nat, j: nat)
    requires j <= k && n + k <= 2 * |s|
    ensures Nibbles(s, n, k) % Pow16(j) == Nibbles(s, n, j) < Pow16(j)
    decreases j
  {
    if j > 0 {
      NibblesMask(s, n + 1, k - 1, j - 1);
      NibbleBelow(s, n);
      hide Nibble, Nibbles, Pow16;
      NibblesCons(s, n, k);
      NibblesCons(s, n, j);
      PowCons(j);
      MaskStep(Nibble(s, n), Nibbles(s, n + 1, k - 1), Pow16(j - 1));
    }
  }

  lemma NibblesCons(s: seq<Byte>, n: nat, k: nat)
    requires k > 0 && n + k <= 2 * |s|
    ensures n / 2 < |s| && Nibbles(s, n, k) == Nibble(s, n) + 16 * Nibbles(s, n + 1, k - 1)
  {
  }

  lemma PowCons(j: nat)
    requires j > 0
    ensures Pow16(j) == 16 * Pow16(j - 1)
  {
  }

  lemma MaskStep(d: nat, m: nat, p: nat)
    requires d < 16 && p >= 1
    ensures (d + 16 * m) % (16 * p) == d + 16 * (m % p)
    ensures d + 16 * (m % p) < 16 * p
  {
    var q, r := m / p, m % p;
    assert m == p * q + r;
    assert 16 * (p * q) == (16 * p) * q;
    DivUnique(d + 16 * m, 16 * p, q, d + 16 * r);
  }

  /** The little-endian word at byte `b`. */
  function Word(s: seq<Byte>, b: nat): nat
    requires b + 4 <= |s|
  {
    var b0: nat, b1: nat, b2: nat, b3: nat := s[b], s[b + 1], s[b + 2], s[b + 3];
    b0 + 0x100 * b1 + 0x1_0000 * b2 + 0x100_0000 * b3
  }

  lemma ByteNibbles(x: Byte)
    ensures x == x % 16 + 16 * (x / 16)
  {
  }

  lemma WordNibbles(s: seq<Byte>, b: nat)
    requires b + 4 <= |s|
    ensures Word(s, b) == Nibbles(s, 2 * b, 8)
  {
    hide Nibble, Nibbles;
    NibblesCons(s, 2 * b, 8);
    NibblesCons(s, 2 * b + 1, 7);
    NibblesCons(s, 2 * b + 2, 6);
    NibblesCons(s, 2 * b + 3, 5);
    NibblesCons(s, 2 * b + 4, 4);
    NibblesCons(s, 2 * b + 5, 3);
    NibblesCons(s, 2 * b + 6, 2);
    NibblesCons(s, 2 * b + 7, 1);
    NoNibbles(s, 2 * b + 8);
    BytePair(s, b);
    BytePair(s, b + 1);
    BytePair(s, b + 2);
    BytePair(s, b + 3);
  }

  lemma NoNibbles(s: seq<Byte>, n: nat)
    requires n <= 2 * |s|
    ensures Nibbles(s, n, 0) == 0
  {
  }

  lemma BytePair(s: seq<Byte>, b: nat)
    requires b < |s|
    ensures (2 * b) / 2 == b && (2 * b + 1) / 2 == b
    ensures s[b] == Nibble(s, 2 * b) + 16 * Nibble(s, 2 * b + 1)
  {
    ByteNibbles(s[b]);
  }

  /** Half bytes of a part of the disk are half bytes of the disk. */
  lemma {:induction false} NibblesOf(s: seq<Byte>, t: seq<Byte>, at: nat, n: nat, k: nat)
    requires n + k <= 2 * |s| && 2 * at + n + k <= 2 * |t|
    requires forall i :: 0 <= i < |s| && at + i < |t| && 2 * i < n + k ==> s[i] == t[at + i]
    ensures Nibbles(s, n, k) == Nibbles(t, 2 * at + n, k)
    decreases k
  {
    if k > 0 {
      NibblesOf(s, t, at, n + 1, k - 1);
      HalfOf(at, n);
      assert s[n / 2] == t[at + n / 2];
    }
  }

  lemma HalfOf(at: nat, n: nat)
    ensures (2 * at + n) / 2 == at + n / 2 && (2 * at + n) % 2 == n % 2
  {
  }

  /** What a FAT entry says: the next cluster, the end of the file, or nothing valid. */
  datatype Link = At(cluster: nat) | Eof | Corrupt

  /** The layout of a volume; positions in bytes, entry size in half bytes. */
  datatype Volume = Volume(disk: seq<Byte>, fatStart: nat, dataStart: nat, fatSize: nat, clusterSize: nat,
                           numClust: nat, eofMarker: nat)
  {
    ghost predicate Valid() {
      && (fatSize == 3 || fatSize == 4 || fatSize == 8) && clusterSize > 0
      && (forall c: nat :: c < numClust ==> fatStart + SectorOf(c) * 512 + FAT_CACHE_SIZE <= |disk|)
      && (forall c: nat :: 2 <= c < numClust ==> DataAt(c) + clusterSize <= |disk|)
    }

    /** The half byte where a cluster's entry begins, counted from the start of the FAT. */
    function EntryAt(c: nat): nat {
      c * fatSize
    }

    lemma EntryIs(c: nat)
      ensures fatSize == 4 ==> EntryAt(c) == 4 * c
      ensures fatSize == 8 ==> EntryAt(c) == 8 * c
    {
    }

    /** The sector of the FAT in which a cluster's entry begins. */
    function SectorOf(c: nat): nat {
      EntryAt(c) / SECTOR_NIBBLES
    }

    function DataAt(c: nat): nat
      requires c >= 2
    {
      dataStart + Times(c - 2, clusterSize)
    }

    lemma EntryOnDisk(c: nat)
      requires Valid() && c < numClust
      ensures 2 * fatStart + EntryAt(c) + fatSize <= 2 * |disk|
    {
      assert fatStart + SectorOf(c) * 512 + FAT_CACHE_SIZE <= |disk|;
    }

    /** The entry of a cluster, as it stands on the disk. */
    function Entry(c: nat): nat
      requires Valid() && c < numClust
    {
      EntryOnDisk(c);
      Nibbles(disk, 2 * fatStart + EntryAt(c), fatSize)
    }

    function LinkOf(e: nat): Link {
      if e >= eofMarker then Eof else if e < 2 || e >= numClust then Corrupt else At(e)
    }

    /** The `k`-th cluster of the chain that begins at `first`. */
    function Chain(first: nat, k: nat): (l: Link)
      requires Valid() && 2 <= first < numClust
      ensures l.At? ==> 2 <= l.cluster < numClust
    {
      if k == 0 then At(first)
      else
        match Chain(first, k - 1)
        case At(c) => LinkOf(Entry(c))
        case Eof => Eof
        case Corrupt => Corrupt
    }

    /** The file byte at position `p`, if its cluster is on the chain. */
    function FileByte(first: nat, p: nat): Option<Byte>
      requires Valid() && 2 <= first < numClust
    {
      match Chain(first, p / clusterSize)
      case At(c) => InCluster(c, p); Some(disk[DataAt(c) + p % clusterSize])
      case Eof => None
      case Corrupt => None
    }

    lemma ClusterFits(c: nat)
      requires Valid() && 2 <= c < numClust
      ensures DataAt(c) + clusterSize <= |disk|
    {
    }

    lemma ByteAt(first: nat, p: nat, i: nat, c: nat)
      requires Valid() && 2 <= first < numClust && Chain(first, p / clusterSize) == At(c)
               && p % clusterSize + i < clusterSize
      ensures DataAt(c) + p % clusterSize + i < |disk|
      ensures FileByte(first, p + i) == Some(disk[DataAt(c) + p % clusterSize + i])
    {
      hide Chain, DataAt;
      ClusterFits(c);
      SameCluster(p, i, clusterSize);
    }

    /** `s` is what the file holds from position `p` on. */
    ghost predicate Spells(first: nat, p: nat, s: seq<Byte>)
      requires Valid() && 2 <= first < numClust
    {
      forall i :: 0 <= i < |s| ==> FileByte(first, p + i) == Some(s[i])
    }

    lemma SpellsOn(first: nat, p: nat, s: seq<Byte>, t: seq<Byte>)
      requires Valid() && 2 <= first < numClust && Spells(first, p, s) && Spells(first, p + |s|, t)
      ensures Spells(first, p, s + t)
    {
      hide FileByte, Valid;
      forall i | 0 <= i < |s + t|
        ensures FileByte(first, p + i) == Some((s + t)[i])
      {
        if i >= |s| {
          assert FileByte(first, p + |s| + (i - |s|)) == Some(t[i - |s|]);
        }
      }
    }

    lemma InCluster(c: nat, p: nat)
      requires Valid() && 2 <= c < numClust
      ensures p % clusterSize < clusterSize && DataAt(c) + p % clusterSize < |disk|
    {
    }
  }

  class FatFile {
    const vol: Volume
    const fileCluster: nat
    const fatBuf: array<Byte>
    var cachedFat: Option<nat>
    var currentCluster: nat
    var currentNum: nat
    var filepos: nat

    /** The buffer holds the part of the FAT from half byte `cachedFat` on. */
    ghost predicate CacheOk()
      reads this`cachedFat, fatBuf
    {
      && fatBuf.Length == FAT_CACHE_SIZE + 4
      && (cachedFat.Some? ==>
            && cachedFat.value % SECTOR_NIBBLES == 0
            && vol.fatStart + cachedFat.value / 2 + FAT_CACHE_SIZE <= |vol.disk|
            && fatBuf[..FAT_CACHE_SIZE]
              == vol.disk[vol.fatStart + cachedFat.value / 2..vol.fatStart + cachedFat.value / 2 + FAT_CACHE_SIZE])
    }

    ghost predicate Valid()
      reads this, fatBuf
    {
      && vol.Valid() && 2 <= fileCluster < vol.numClust && CacheOk()
      && vol.Chain(fileCluster, currentNum) == At(currentCluster)
    }

    constructor (v: Volume, first: nat)
      requires v.Valid() && 2 <= first < v.numClust
      ensures Valid() && vol == v && fileCluster == first && filepos == 0
    {
      vol, fileCluster := v, first;
      fatBuf := new Byte[FAT_CACHE_SIZE + 4];
      cachedFat := None;
      currentCluster, currentNum, filepos := first, 0, 0;
    }

    /** The entry of a cluster, taken from the cached part of the FAT. */
    method NextEntry(c: nat) returns (next: nat)
      requires vol.Valid() && c < vol.numClust && CacheOk()
      modifies this`cachedFat, fatBuf
      ensures CacheOk() && next == vol.Entry(c)
    {
      hide vol.Valid, Nibbles, Word, vol.SectorOf, vol.EntryAt;
      var fatEntry := vol.EntryAt(c);
      FatShape(c);
      if cachedFat.None? || fatEntry < cachedFat.value
        || fatEntry - cachedFat.value + vol.fatSize > 2 * FAT_CACHE_SIZE {
        LoadFat(vol.SectorOf(c));
      }
      var pos := fatEntry - cachedFat.value;
      EntryParity(c, cachedFat.value);
      next := Word(fatBuf[..], pos / 2);
      CutOut(fatBuf[..], pos, vol.fatSize);
      if vol.fatSize == 3 {
        if pos % 2 == 1 {
          next := next / 16;
        }
        next := next % 0x1000;
      } else if vol.fatSize == 4 {
        next := next % 0x1_0000;
      }
      FromBuffer(c);
    }

    lemma FatShape(c: nat)
      requires vol.Valid() && c < vol.numClust
      ensures vol.fatSize == 3 || vol.fatSize == 4 || vol.fatSize == 8
      ensures vol.fatStart + vol.SectorOf(c) * 512 + FAT_CACHE_SIZE <= |vol.disk|
      ensures 0 <= vol.EntryAt(c) - vol.SectorOf(c) * SECTOR_NIBBLES < SECTOR_NIBBLES
    {
    }

    lemma EntryParity(c: nat, x: nat)
      requires x % SECTOR_NIBBLES == 0 && x <= vol.EntryAt(c)
      ensures vol.fatSize == 4 || vol.fatSize == 8 ==> (vol.EntryAt(c) - x) % 2 == 0
    {
      hide vol.EntryAt;
      vol.EntryIs(c);
      if vol.fatSize == 4 {
        EvenRest(vol.EntryAt(c), 2 * c, x);
      } else if vol.fatSize == 8 {
        EvenRest(vol.EntryAt(c), 4 * c, x);
      }
    }

    /** Reads four sectors of the FAT into the buffer. */
    method LoadFat(sector: nat)
      requires fatBuf.Length == FAT_CACHE_SIZE + 4 && vol.fatStart + sector * 512 + FAT_CACHE_SIZE <= |vol.disk|
      modifies this`cachedFat, fatBuf
      ensures CacheOk() && cachedFat == Some(sector * SECTOR_NIBBLES)
    {
      var at := vol.fatStart + sector * 512;
      forall i | 0 <= i < FAT_CACHE_SIZE {
        fatBuf[i] := vol.disk[at + i];
      }
      cachedFat := Some(sector * SECTOR_NIBBLES);
      assert fatBuf[..FAT_CACHE_SIZE] == vol.disk[at..at + FAT_CACHE_SIZE];
    }

    lemma FromBuffer(c: nat)
      requires vol.Valid() && c < vol.numClust && CacheOk() && cachedFat.Some?
      requires cachedFat.value <= vol.EntryAt(c) && vol.EntryAt(c) - cachedFat.value + vol.fatSize <= 2 * FAT_CACHE_SIZE
      ensures Nibbles(fatBuf[..], vol.EntryAt(c) - cachedFat.value, vol.fatSize) == vol.Entry(c)
    {
      hide Nibbles, vol.EntryAt, vol.SectorOf, vol.Valid, CacheOk;
      vol.EntryOnDisk(c);
      var n := cachedFat.value;
      var at := BufferPlace();
      NibblesOf(fatBuf[..], vol.disk, at, vol.EntryAt(c) - n, vol.fatSize);
      SamePlace(vol.fatStart, n, at, vol.EntryAt(c));
    }

    /** Where the bytes in the buffer come from. */
    lemma BufferPlace() returns (at: nat)
      requires CacheOk() && cachedFat.Some?
      ensures 2 * at == 2 * vol.fatStart + cachedFat.value
      ensures |fatBuf[..]| == FAT_CACHE_SIZE + 4 && at + FAT_CACHE_SIZE <= |vol.disk|
      ensures forall i :: 0 <= i < FAT_CACHE_SIZE ==> fatBuf[..][i] == vol.disk[at + i]
    {
      EvenStart(cachedFat.value);
      at := vol.fatStart + cachedFat.value / 2;
      forall i | 0 <= i < FAT_CACHE_SIZE
        ensures fatBuf[..][i] == vol.disk[at + i]
      {
        assert fatBuf[..FAT_CACHE_SIZE][i] == vol.disk[at..at + FAT_CACHE_SIZE][i];
      }
    }

    /** Reads up to `len0` bytes from the file position on; the end of the chain ends the file. */
    method Read(len0: nat) returns (ret: nat, data: seq<Byte>, corrupt: bool)
      requires Valid()
      modifies this, fatBuf
      ensures Valid() && ret == |data| <= len0
      ensures corrupt ==>
                && ret == 0
                && exists k: nat ::
                     k * vol.clusterSize < old(filepos) + len0 && vol.Chain(fileCluster, k).Corrupt?
      ensures !corrupt ==>
                && filepos == old(filepos) + ret
                && vol.Spells(fileCluster, old(filepos), data)
                && (ret < len0 ==> vol.Chain(fileCluster, filepos / vol.clusterSize) == Eof)
    {
      hide vol.Valid, vol.Chain, vol.FileByte, vol.DataAt, vol.Spells, CacheOk;
      ret, data, corrupt := 0, [], false;
      Positive();
      NothingSpelt(filepos);
      var logical := filepos / vol.clusterSize;
      var offset := filepos % vol.clusterSize;
      QuotientNat(filepos, vol.clusterSize);
      if logical < currentNum {
        currentNum := 0;
        currentCluster := fileCluster;
        AtFirstCluster();
      }
      var len := len0;
      while len > 0
        invariant Valid() && 0 <= len && ret + len == len0 && ret == |data| && filepos == old(filepos) + ret
        invariant len > 0 ==>
              logical == filepos / vol.clusterSize >= 0 && offset == filepos % vol.clusterSize && currentNum <= logical
        invariant vol.Spells(fileCluster, old(filepos), data)
        decreases len
      {
        var link := Follow(logical);
        if link == Eof {
          return;
        }
        if link == Corrupt {
          QuotientNat(filepos, vol.clusterSize);
          return 0, [], true;
        }
        var size := vol.clusterSize - offset;
        if size > len {
          size := len;
        }
        PieceBytes(filepos, size);
        NextPosition(filepos, size, vol.clusterSize);
        var at := vol.DataAt(currentCluster) + offset;
        vol.SpellsOn(fileCluster, old(filepos), data, vol.disk[at..at + size]);
        data := data + vol.disk[at..at + size];
        len := len - size;
        ret := ret + size;
        filepos := filepos + size;
        logical := logical + 1;
        offset := 0;
      }
    }

    lemma Positive()
      requires Valid()
      ensures vol.Valid() && vol.clusterSize > 0 && 2 <= fileCluster < vol.numClust
      ensures 2 <= currentCluster < vol.numClust && vol.Chain(fileCluster, currentNum) == At(currentCluster)
    {
    }

    lemma AtFirstCluster()
      requires vol.Valid() && 2 <= fileCluster < vol.numClust && CacheOk() && currentNum == 0
               && currentCluster == fileCluster
      ensures Valid()
    {
    }

    /** Goes along the chain to cluster number `logical`. */
    method Follow(logical: nat) returns (link: Link)
      requires Valid() && currentNum <= logical
      modifies this`cachedFat, this`currentCluster, this`currentNum, fatBuf
      ensures Valid() && currentNum <= logical
      ensures link.At? ==> currentNum == logical && link == At(currentCluster)
      ensures !link.At? ==> vol.Chain(fileCluster, logical) == link
    {
      hide vol.Valid, vol.Chain, vol.Entry, CacheOk;
      while logical > currentNum
        invariant Valid() && currentNum <= logical
        decreases logical - currentNum
      {
        ChainStep(currentNum);
        var next := NextEntry(currentCluster);
        if next >= vol.eofMarker {
          Stays(currentNum + 1, logical);
          return Eof;
        }
        if next < 2 || next >= vol.numClust {
          Stays(currentNum + 1, logical);
          return Corrupt;
        }
        currentCluster := next;
        currentNum := currentNum + 1;
      }
      return At(currentCluster);
    }

    lemma ChainStep(k: nat)
      requires vol.Valid() && 2 <= fileCluster < vol.numClust && vol.Chain(fileCluster, k).At?
      ensures vol.Chain(fileCluster, k).cluster < vol.numClust
      ensures vol.Chain(fileCluster, k + 1) == vol.LinkOf(vol.Entry(vol.Chain(fileCluster, k).cluster))
    {
      hide vol.Entry, vol.LinkOf, vol.Valid;
    }

    /** A chain that has ended does not go on. */
    lemma {:induction false} Stays(k: nat, n: nat)
      requires vol.Valid() && 2 <= fileCluster < vol.numClust && k <= n && !vol.Chain(fileCluster, k).At?
      ensures vol.Chain(fileCluster, n) == vol.Chain(fileCluster, k)
      decreases n - k
    {
      hide vol.Entry, vol.LinkOf, vol.Valid;
      if k < n {
        Stays(k, n - 1);
      }
    }

    lemma NothingSpelt(p: nat)
      requires vol.Valid() && 2 <= fileCluster < vol.numClust
      ensures vol.Spells(fileCluster, p, [])
    {
    }

    /** The bytes of the current cluster are the bytes of the file. */
    lemma PieceBytes(p: nat, size: nat)
      requires Valid() && p / vol.clusterSize == currentNum && p % vol.clusterSize + size <= vol.clusterSize
      ensures currentCluster >= 2 && vol.Valid() && 2 <= fileCluster < vol.numClust
      ensures var at := vol.DataAt(currentCluster) + p % vol.clusterSize;
              at + size <= |vol.disk| && vol.Spells(fileCluster, p, vol.disk[at..at + size])
    {
      hide vol.Chain, vol.DataAt, CacheOk, vol.FileByte, vol.Valid;
      Positive();
      vol.ClusterFits(currentCluster);
      var at := vol.DataAt(currentCluster) + p % vol.clusterSize;
      var piece := vol.disk[at..at + size];
      forall i | 0 <= i < |piece|
        ensures vol.FileByte(fileCluster, p + i) == Some(piece[i])
      {
        vol.ByteAt(fileCluster, p, i, currentCluster);
      }
    }
  }

  lemma QuotientNat(p: nat, c: nat)
    requires c > 0
    ensures p / c >= 0 && (p / c) * c <= p && 0 <= p % c < c
  {
    DivNat(p, c);
    assert p == c * (p / c) + p % c;
  }

  lemma SameCluster(p: nat, i: nat, c: nat)
    requires c > 0 && p % c + i < c
    ensures (p + i) / c == p / c && (p + i) % c == p % c + i
  {
    assert p == c * (p / c) + p % c;
    DivUnique(p + i, c, p / c, p % c + i);
  }

  /** Behind the end of a cluster begins the next. */
  lemma NextPosition(p: nat, size: nat, c: nat)
    requires c > 0 && size <= c - p % c
    ensures size == c - p % c ==> (p + size) / c == p / c + 1 && (p + size) % c == 0
  {
    assert p == c * (p / c) + p % c;
    if size == c - p % c {
      assert p + size == c * (p / c + 1);
      DivUnique(p + size, c, p / c + 1, 0);
    }
  }

  /** The full 32 bits of a FAT32 entry, which the program takes, are the 28 bits of the format exactly if
      the highest half byte is zero. */
  lemma Fat32Bits(s: seq<Byte>, n: nat)
    requires n + 8 <= 2 * |s|
    ensures Nibbles(s, n, 8) == Nibbles(s, n, 7) <==> Nibbles(s, n, 8) < 0x1000_0000
  {
    hide Nibbles;
    NibblesMask(s, n, 8, 7);
    assert Pow16(7) == 0x1000_0000;
  }

  /** Entry 5 with a bit of the top four set, which the program takes for a much greater number. */
  lemma Fat32Example()
    ensures var s: seq<Byte> := [5, 0, 0, 0x10]; Nibbles(s, 0, 8) == 0x1000_0005 && Nibbles(s, 0, 7) == 5
  {
    var s: seq<Byte> := [5, 0, 0, 0x10];
    assert Nibbles(s, 7, 1) == 1 && Nibbles(s, 7, 0) == 0;
    assert Nibbles(s, 4, 4) == 0x1000 && Nibbles(s, 4, 3) == 0 by {
      assert Nibbles(s, 6, 2) == 16 && Nibbles(s, 6, 1) == 0;
    }
    assert Nibbles(s, 2, 6) == 0x10_0000 && Nibbles(s, 2, 5) == 0;
  }

  lemma EvenStart(n: nat)
    requires n % SECTOR_NIBBLES == 0
    ensures 2 * (n / 2) == n
  {
    DivNat(n, SECTOR_NIBBLES);
    var h: nat := 512 * (n / SECTOR_NIBBLES);
    assert n == 2 * h;
    DivUnique(n, 2, h, 0);
  }

  lemma EvenRest(e: nat, q: nat, x: nat)
    requires e == 2 * q && x % SECTOR_NIBBLES == 0 && x <= e
    ensures (e - x) % 2 == 0
  {
    var h: int := 512 * (x / SECTOR_NIBBLES);
    assert x == 2 * h;
    DivUnique(e - x, 2, q - h, 0);
  }

  lemma SamePlace(start: nat, n: nat, at: nat, entry: nat)
    requires 2 * at == 2 * start + n && n <= entry
    ensures 2 * at + (entry - n) == 2 * start + entry
  {
  }

  /** The shifting and masking of the word at an entry cuts out its half bytes. */
  lemma CutOut(buf: seq<Byte>, pos: nat, size: nat)
    requires pos / 2 + 4 <= |buf| && pos + size <= 2 * |buf|
             && (size == 3 || ((size == 4 || size == 8) && pos % 2 == 0))
    ensures size == 3 ==>
          (if pos % 2 == 1 then Word(buf, pos / 2) / 16 else Word(buf, pos / 2)) % 0x1000 == Nibbles(buf, pos, 3)
    ensures size == 4 ==> Word(buf, pos / 2) % 0x1_0000 == Nibbles(buf, pos, 4)
    ensures size == 8 ==> Word(buf, pos / 2) == Nibbles(buf, pos, 8)
  {
    hide Nibbles, Word;
    WordNibbles(buf, pos / 2);
    SmallPow16();
    if pos % 2 == 1 {
      assert pos == 2 * (pos / 2) + 1;
      NibblesShift(buf, pos - 1, 8);
      NibblesMask(buf, pos, 7, 3);
    } else {
      assert pos == 2 * (pos / 2);
      NibblesMask(buf, pos, 8, 3);
      NibblesMask(buf, pos, 8, 4);
    }
  }

  lemma SmallPow16()
    ensures Pow16(3) == 0x1000 && Pow16(4) == 0x1_0000
  {
    assert Pow16(2) == 256;
  }
}
