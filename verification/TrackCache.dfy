/** The track cache in front of the disks: reads and writes behave as if there were none. */
module TrackCache {
  import opened Words
  import opened Arith
  import opened Slices

  const BUFFERLEN: nat := 0x1_0000

  /** Sector size, sectors per track, and whether the drive is addressed by sector number. */
  datatype Geometry = Geometry(sectorSize: nat, sectors: nat, lba: bool) {
    predicate Valid() {
      && 1 <= sectorSize <= BUFFERLEN && BUFFERLEN % sectorSize == 0
      && 1 <= sectors && sectors * sectorSize <= BUFFERLEN
    }

    /** How many sectors the cache treats as one track. */
    function Track(): nat
      requires sectorSize >= 1
    {
      if !lba then sectors else if sectorSize == 512 then 127 else BUFFERLEN / sectorSize
    }
  }

  /** The size of `n` sectors. */
  function Bytes(g: Geometry, n: nat): nat {
    n * g.sectorSize
  }

  lemma BytesAdd(g: Geometry, a: nat, b: nat)
    ensures Bytes(g, a) + Bytes(g, b) == Bytes(g, a + b)
    ensures a <= b ==> Bytes(g, a) <= Bytes(g, b)
    ensures Bytes(g, 0) == 0 && Bytes(g, 1) == g.sectorSize
  {
    if a <= b {
      assert (b - a) * g.sectorSize >= 0;
      assert (b - a) * g.sectorSize == b * g.sectorSize - a * g.sectorSize;
    }
  }

  lemma BytesBelow(g: Geometry, a: nat, b: nat)
    requires Bytes(g, a) < Bytes(g, b)
    ensures a < b
  {
    if b <= a {
      BytesAdd(g, b, a);
    }
  }

  /** The sectors that hold `n` bytes. */
  function Covering(g: Geometry, n: nat): nat
    requires g.sectorSize >= 1
  {
    DivNat(n + g.sectorSize - 1, g.sectorSize);
    (n + g.sectorSize - 1) / g.sectorSize
  }

  lemma CoveringIs(g: Geometry, n: nat)
    requires g.sectorSize >= 1
    ensures n <= Bytes(g, Covering(g, n)) < n + g.sectorSize
    ensures n > 0 ==> Covering(g, n) >= 1
  {
    var m := n + g.sectorSize - 1;
    assert m == g.sectorSize * (m / g.sectorSize) + m % g.sectorSize;
    assert Bytes(g, Covering(g, n)) == g.sectorSize * (m / g.sectorSize);
    BytesAdd(g, 0, 0);
  }

  lemma TrackFits(g: Geometry)
    requires g.Valid()
    ensures g.Track() >= 1 && Bytes(g, g.Track()) <= BUFFERLEN
  {
    if g.lba && g.sectorSize != 512 {
      var q := BUFFERLEN / g.sectorSize;
      assert BUFFERLEN == g.sectorSize * q + BUFFERLEN % g.sectorSize;
      if q < 1 {
        MulSign(g.sectorSize, q - 1);
      }
    }
  }

  /** The place of a sector in its track: the low word alone, or both words of a 64-bit number, modulo 127. */
  function Offset127(sector: nat): nat {
    if sector >= WORD then ((sector / WORD) % 127 * 16 + sector % WORD % 127) % 127
    else sector % 127
  }

  /** The two-word computation is the remainder of the whole number: 2^32 leaves 16. */
  lemma Offset127Exact(sector: nat)
    ensures Offset127(sector) == sector % 127
  {
    if sector >= WORD {
      var hi, lo := sector / WORD, sector % WORD;
      assert sector == hi * WORD + lo;
      var a, b := hi % 127, lo % 127;
      assert hi == 127 * (hi / 127) + a && lo == 127 * (lo / 127) + b;
      var n := a * 16 + b;
      var k := (hi / 127) * WORD + a * 33818640 + lo / 127 + n / 127;
      assert sector == 127 * k + n % 127;
      DivUnique(sector, 127, k, n % 127);
    }
  }

  /** `sector` modulo the track size, as the program computes it. */
  function Offset(g: Geometry, sector: nat): nat
    requires g.sectorSize >= 1 && g.Track() >= 1
  {
    if g.lba && g.sectorSize == 512 then Offset127(sector) else sector % g.Track()
  }

  lemma OffsetBelow(g: Geometry, sector: nat)
    requires g.sectorSize >= 1 && g.Track() >= 1
    ensures Offset(g, sector) < g.Track() && Offset(g, sector) <= sector
  {
    Offset127Exact(sector);
    Remainder(sector, g.Track());
    Remainder(sector, 127);
  }

  lemma Remainder(n: nat, t: nat)
    requires t >= 1
    ensures n % t < t && n % t <= n
  {
    DivNat(n, t);
    if n < t {
      DivUnique(n, t, 0, n);
    }
  }

  /** A sector that begins with the mark that the read check leaves in memory. */
  predicate Marked(g: Geometry, disk: seq<Byte>, sector: nat) {
    var at := Bytes(g, sector);
    at + 16 <= |disk| && disk[at..at + 16] == BAD_MARK
  }

  const BAD_MARK: seq<Byte> := [66, 65, 68, 63, 66, 65, 68, 63, 66, 65, 68, 63, 66, 65, 68, 63]

  /** `len` bytes from byte `at` on replaced by the first `len` bytes of `src`. */
  function Put(disk: seq<Byte>, at: nat, src: seq<Byte>, len: nat): (d: seq<Byte>)
    requires len <= |src| && at + len <= |disk|
    ensures |d| == |disk|
  {
    disk[..at] + src[..len] + disk[at + len..]
  }

  class DiskCache {
    const geoms: map<nat, Geometry>
    const buffer: array<Byte>
    var disks: map<nat, seq<Byte>>
    var bufDrive: Option<nat>
    var bufTrack: Option<nat>

    /** Every drive has whole sectors, and no more of them than its addressing can name. */
    ghost predicate Disks()
      reads this`disks
    {
      && disks.Keys == geoms.Keys
      && forall d :: d in disks ==>
           && geoms[d].Valid() && |disks[d]| % geoms[d].sectorSize == 0
           && (!geoms[d].lba ==> |disks[d]| <= Bytes(geoms[d], WORD))
    }

    /** A valid track number means that the buffer holds that whole track. */
    ghost predicate Coherent()
      reads this`disks, this`bufDrive, this`bufTrack, buffer
    {
      && buffer.Length == BUFFERLEN
      && (bufDrive.Some? ==> bufDrive.value in disks && bufDrive.value in geoms)
      && (bufDrive.Some? && bufTrack.Some? && geoms[bufDrive.value].Valid() ==>
            TrackHeld(geoms[bufDrive.value], disks[bufDrive.value], buffer[..], bufTrack.value))
    }

    ghost predicate Valid()
      reads this`disks, this`bufDrive, this`bufTrack, buffer
    {
      Disks() && Coherent()
    }

    /** All of that but for what the buffer holds. */
    ghost predicate Placed()
      reads this`disks, this`bufDrive
    {
      && Disks() && buffer.Length == BUFFERLEN
      && (bufDrive.Some? ==> bufDrive.value in disks && bufDrive.value in geoms)
    }

    /** `n` bytes from the start of a sector lie in the track that counts as cached. */
    ghost predicate Cached(drive: nat, sector: nat, n: nat)
      reads this`bufTrack
      requires drive in geoms && geoms[drive].Valid()
    {
      var g := geoms[drive];
      TrackFits(g);
      OffsetBelow(g, sector);
      bufTrack == Some(sector - Offset(g, sector)) && n <= Bytes(g, g.Track() - Offset(g, sector))
    }

    constructor (g: map<nat, Geometry>, contents: map<nat, seq<Byte>>)
      requires contents.Keys == g.Keys
      requires forall d :: d in contents ==>
                 && g[d].Valid() && |contents[d]| % g[d].sectorSize == 0
                 && (!g[d].lba ==> |contents[d]| <= Bytes(g[d], WORD))
      ensures Valid() && disks == contents && geoms == g && fresh(buffer)
    {
      geoms, disks := g, contents;
      buffer := new Byte[BUFFERLEN];
      bufDrive, bufTrack := None, None;
    }

    /** BIOS read of `n` sectors into the buffer at byte `at`; an error also if the last sector read
        looks like the mark that was put there before. */
    method RawDiskRead(drive: nat, sector: nat, n: nat, at: nat) returns (ok: bool)
      requires Disks() && drive in disks && buffer.Length == BUFFERLEN
      requires n > 0 && at + Bytes(geoms[drive], n) <= BUFFERLEN
      modifies buffer
      ensures ok <==>
                && Bytes(geoms[drive], sector + n) <= |disks[drive]|
                && !Marked(geoms[drive], disks[drive], sector + n - 1)
      ensures ok ==> Held(geoms[drive], disks[drive], buffer[..], at, sector, n)
    {
      var g, disk := geoms[drive], disks[drive];
      BytesAdd(g, sector, n);
      if Bytes(g, sector + n) > |disk| {
        return false;
      }
      var from, len := Bytes(g, sector), Bytes(g, n);
      forall i | 0 <= i < len {
        buffer[at + i] := disk[from + i];
      }
      ok := !Marked(g, disk, sector + n - 1);
    }

    /** Reads a track, or as much of it as is needed, into the buffer. */
    method FillTrack(drive: nat, sector: nat, soff: nat, spv: nat, slen: nat) returns (ok: bool, numSect: nat)
      requires Placed() && drive in disks && bufDrive == Some(drive) && slen >= 1
      requires spv == geoms[drive].Track() >= 1 && soff == Offset(geoms[drive], sector) <= sector && soff < spv
      modifies this`bufTrack, buffer
      ensures Valid() && 1 <= numSect <= spv - soff
      ensures ok ==> Held(geoms[drive], disks[drive], buffer[..], Bytes(geoms[drive], soff), sector, numSect)
                     && (numSect == spv - soff || numSect == slen)
      ensures !ok ==> Unreadable(geoms[drive], disks[drive], sector, slen)
      ensures slen <= spv - soff && WholeTrack(geoms[drive], disks[drive], sector - soff) ==>
                ok && numSect == spv - soff && bufTrack == Some(sector - soff)
    {
      hide Held, Bytes, Marked, Unreadable, WholeTrack;
      var g := geoms[drive];
      WholeTrackIs(g, disks[drive], sector - soff);
      TrackFits(g);
      BytesAdd(g, soff, spv - soff);
      numSect := spv - soff;
      var track := sector - soff;
      bufTrack := None;
      if slen > numSect {
        ok := RawDiskRead(drive, sector, numSect, Bytes(g, soff));
        if !ok {
          Blocked(g, disks[drive], sector, numSect, slen);
        }
        return;
      }
      ok := RawDiskRead(drive, track, spv, 0);
      if ok {
        bufTrack := Some(track);
        TrackStarts(g, sector);
        HeldPart(g, disks[drive], buffer[..], track, soff, spv);
        return;
      }
      if slen == spv {
        Blocked(g, disks[drive], track, spv, slen);
        return;
      }
      BytesAdd(g, slen, numSect - slen);
      ok := RawDiskRead(drive, sector, slen, Bytes(g, soff));
      numSect := slen;
      if !ok {
        Blocked(g, disks[drive], sector, slen, slen);
      }
    }

    /** Makes the buffer hold the sectors from `sector` to the end of its track, or as many as are needed;
        a track that counts as cached is taken as it is. */
    method LoadTrack(drive: nat, sector: nat, soff: nat, spv: nat, slen: nat) returns (ok: bool, numSect: nat)
      requires Placed() && drive in disks && bufDrive == Some(drive) && slen >= 1
      requires spv == geoms[drive].Track() >= 1 && soff == Offset(geoms[drive], sector) <= sector && soff < spv
      modifies this`bufTrack, buffer
      ensures Placed() && 1 <= numSect <= spv - soff
      ensures old(Coherent()) || old(bufTrack) != Some(sector - soff) ==> Coherent()
      ensures ok && Coherent() ==>
                Held(geoms[drive], disks[drive], buffer[..], Bytes(geoms[drive], soff), sector, numSect)
      ensures ok ==> numSect == spv - soff || numSect == slen
      ensures !ok ==> Unreadable(geoms[drive], disks[drive], sector, slen)
      ensures slen <= spv - soff && WholeTrack(geoms[drive], disks[drive], sector - soff) ==>
                ok && numSect == spv - soff && bufTrack == Some(sector - soff)
      ensures old(bufTrack) == Some(sector - soff) ==>
                ok && numSect == spv - soff && bufTrack == old(bufTrack) && buffer[..] == old(buffer[..])
    {
      hide Held, Bytes, Marked, Unreadable, WholeTrack, Offset, Disks;
      ok, numSect := true, spv - soff;
      if bufTrack != Some(sector - soff) {
        ok, numSect := FillTrack(drive, sector, soff, spv, slen);
        return;
      }
      DriveShape(drive);
      if Coherent() {
        HeldPart(geoms[drive], disks[drive], buffer[..], sector - soff, soff, spv);
      }
    }

    lemma DriveShape(drive: nat)
      requires Placed() && drive in disks
      ensures drive in geoms && geoms[drive].Valid() && buffer.Length == BUFFERLEN
    {
    }

    /** Brings the next part of a request into the buffer: `size` bytes at `at`, in `numSect` sectors. */
    method Acquire(drive: nat, sector: nat, off: nat, left: nat)
      returns (ok: bool, size: nat, numSect: nat, soff: nat)
      requires Placed() && bufDrive == Some(drive) && drive in disks && drive in geoms && geoms[drive].Valid()
      requires left > 0 && off < geoms[drive].sectorSize
      modifies this`bufTrack, buffer
      ensures Placed() && (old(Coherent()) ==> Coherent())
      ensures !ok ==> Unreadable(geoms[drive], disks[drive], sector, Covering(geoms[drive], off + left))
      ensures ok ==> var g, disk := geoms[drive], disks[drive];
                     && (Coherent() ==> Held(g, disk, buffer[..], Bytes(g, soff), sector, numSect))
                     && 0 < size <= left && off + size <= Bytes(g, numSect) && Bytes(g, soff) + off + size <= BUFFERLEN
                     && (size < left ==> Bytes(g, sector + numSect) == Bytes(g, sector) + off + size)
      ensures ok && InTrack(geoms[drive], disks[drive], sector, off + left) ==>
                size == left && bufTrack == Some(sector - Offset(geoms[drive], sector))
      ensures old(Cached(drive, sector, off + left)) && (geoms[drive].lba || sector < WORD) ==>
                && ok && size == left && soff == Offset(geoms[drive], sector)
                && bufTrack == old(bufTrack) && buffer[..] == old(buffer[..])
    {
      hide Disks, Coherent, Held, Bytes, Marked, Unreadable, Covering, WholeTrack, InTrack, Cached;
      size, numSect, soff := 0, 0, 0;
      var g := geoms[drive];
      TrackFits(g);
      size := if left > BUFFERLEN then BUFFERLEN else left;
      var slen := Covering(g, off + size);
      CoveringIs(g, off + size);
      CoveringMono(g, off + size, off + left);
      if !g.lba && sector >= WORD {
        BeyondAddressing(drive, sector, Covering(g, off + left));
        return false, size, numSect, soff;
      }
      var spv := g.Track();
      soff := Offset(g, sector);
      OffsetBelow(g, sector);
      ghost var inTrack := InTrack(g, disks[drive], sector, off + left);
      InTrackIs(g, disks[drive], sector, off, left);
      CachedIs(drive, sector, off, left);
      ok, numSect := LoadTrack(drive, sector, soff, spv, slen);
      if !ok {
        UnreadableMore(g, disks[drive], sector, slen, Covering(g, off + left));
        return;
      }
      BytesAdd(g, soff, numSect);
      BytesAdd(g, soff + numSect, spv - soff - numSect);
      BytesAdd(g, 1, numSect - 1);
      BytesAdd(g, sector, numSect);
      if size > Bytes(g, numSect) - off {
        size := Bytes(g, numSect) - off;
      }
    }

    lemma CachedIs(drive: nat, sector: nat, off: nat, left: nat)
      requires drive in geoms && geoms[drive].Valid()
      ensures var g := geoms[drive];
              && g.Track() >= 1 && Offset(g, sector) < g.Track() && Offset(g, sector) <= sector
              && (Cached(drive, sector, off + left) ==>
                    && bufTrack == Some(sector - Offset(g, sector))
                    && off + left <= Bytes(g, g.Track() - Offset(g, sector))
                    && left <= BUFFERLEN)
    {
      hide Bytes;
      var g := geoms[drive];
      TrackFits(g);
      OffsetBelow(g, sector);
      BytesAdd(g, g.Track() - Offset(g, sector), Offset(g, sector));
    }

    /** One turn: as much as the current track can give. What counts as cached is taken from the buffer. */
    method Piece(drive: nat, sector: nat, off: nat, left: nat, write: bool, src: seq<Byte>)
      returns (ok: bool, size: nat, numSect: nat, data: seq<Byte>)
      requires Placed() && bufDrive == Some(drive) && drive in disks && drive in geoms && geoms[drive].Valid()
      requires left > 0 && off < geoms[drive].sectorSize && (write ==> |src| == left && Coherent())
      modifies this`disks, this`bufTrack, buffer
      ensures Placed() && (old(Coherent()) ==> Coherent())
      ensures forall d :: d in disks && d != drive ==> disks[d] == old(disks[d])
      ensures drive in disks && (!write ==> disks == old(disks))
      ensures !ok ==> disks == old(disks)
                      && Unreadable(geoms[drive], disks[drive], sector, Covering(geoms[drive], off + left))
      ensures ok ==> 0 < size <= left && |data| == (if write then 0 else size)
      ensures ok && size < left ==> Bytes(geoms[drive], sector + numSect) == Bytes(geoms[drive], sector) + off + size
      ensures ok && old(Coherent()) ==>
                var before, at := old(disks[drive]), Bytes(geoms[drive], sector) + off;
                && at + size <= |before|
                && (if write then disks[drive] == Put(before, at, src, size) else data == before[at..at + size])
      ensures ok && !write ==> CachedAfter(geoms[drive], old(disks[drive]), sector, off + left, left - size, bufTrack)
      ensures old(Cached(drive, sector, off + left)) && (geoms[drive].lba || sector < WORD) && !write ==>
                && ok && size == left && InBuffer(geoms[drive], old(buffer[..]), sector, off, data)
                && bufTrack == old(bufTrack)
    {
      hide Disks, Coherent, Held, Bytes, Unreadable, Covering, Put, InTrack, Offset, Cached;
      data := [];
      var soff;
      BufferedDrive();
      ghost var coherent := Coherent();
      ok, size, numSect, soff := Acquire(drive, sector, off, left);
      if !ok {
        return;
      }
      var g := geoms[drive];
      if coherent {
        HeldRange(g, disks[drive], buffer[..], Bytes(g, soff), sector, numSect, off, size);
      }
      var at := Bytes(g, soff) + off;
      if write {
        if buffer[at..at + size] != src[..size] {
          StoreBack(drive, sector, soff, numSect, off, size, src);
        } else {
          PutSame(disks[drive], Bytes(g, sector) + off, src, size);
        }
      } else {
        data := buffer[at..at + size];
      }
    }

    /** Changes the buffer and writes its sectors to the disk; the cached track is given up. */
    method StoreBack(drive: nat, sector: nat, soff: nat, numSect: nat, off: nat, size: nat, src: seq<Byte>)
      requires Valid() && bufDrive == Some(drive) && drive in disks && size <= |src|
      requires Held(geoms[drive], disks[drive], buffer[..], Bytes(geoms[drive], soff), sector, numSect)
      requires off + size <= Bytes(geoms[drive], numSect)
      modifies this`disks, this`bufTrack, buffer
      ensures Valid() && forall d :: d in disks && d != drive ==> disks[d] == old(disks[d])
      ensures Bytes(geoms[drive], sector) + off + size <= |old(disks[drive])| && drive in disks
      ensures disks[drive] == Put(old(disks[drive]), Bytes(geoms[drive], sector) + off, src, size)
    {
      hide Bytes, Marked;
      var g, disk := geoms[drive], disks[drive];
      var b, a, n := Bytes(g, soff), Bytes(g, sector), Bytes(g, numSect);
      bufTrack := None;
      ghost var held := buffer[..];
      PutBuffer(b + off, src, size);
      WrittenBack(disk, held, a, b, n, off, src, size);
      disks := disks[drive := disk[..a] + buffer[b..b + n] + disk[a + n..]];
    }

    /** memmove into the buffer */
    method PutBuffer(at: nat, src: seq<Byte>, size: nat)
      requires size <= |src| && at + size <= buffer.Length
      modifies buffer
      ensures buffer[..] == Put(old(buffer[..]), at, src, size)
    {
      forall i | 0 <= i < size {
        buffer[at + i] := src[i];
      }
    }

    lemma DiskShape(drive: nat)
      requires Valid() && drive in disks
      ensures drive in geoms && geoms[drive].Valid() && buffer.Length == BUFFERLEN
    {
    }

    lemma BeyondAddressing(drive: nat, sector: nat, n: nat)
      requires Placed() && drive in disks && !geoms[drive].lba && sector >= WORD && n > 0
      ensures Unreadable(geoms[drive], disks[drive], sector, n)
    {
      hide Bytes;
      var g := geoms[drive];
      BytesAdd(g, WORD, sector - WORD);
      BytesAdd(g, sector, 1);
      assert Bad(g, disks[drive], sector);
    }

    /** A read that lies in the track that counts as cached. */
    ghost predicate FromCache(drive: nat, sector: nat, off: nat, len: nat, write: bool)
      requires drive in geoms && geoms[drive].Valid()
      reads this`bufTrack
    {
      !write && len > 0 && (geoms[drive].lba || sector < WORD) && Cached(drive, sector, off + len)
    }

    /** Reads or writes `len` bytes from byte `off0` of a sector on: as on a disk without a cache if what the
        buffer holds is right, and otherwise, within the track that counts as cached, what the buffer holds. */
    method RawRead(drive: nat, sector0: nat, off0: nat, len: nat, write: bool, src: seq<Byte>)
      returns (ok: bool, data: seq<Byte>, ghost done: nat)
      requires Placed() && (write ==> Coherent() && |src| == len) && (drive in geoms ==> off0 < geoms[drive].sectorSize)
      modifies this`disks, this`bufDrive, this`bufTrack, buffer
      ensures Placed() && disks.Keys == old(disks.Keys) && (old(Coherent()) ==> Valid())
      ensures forall d :: d in disks && d != drive ==> disks[d] == old(disks[d])
      ensures drive !in disks ==> !ok
      ensures drive in disks && old(Coherent()) ==>
                && done <= len && (ok ==> done == len)
                && Done(old(disks[drive]), disks[drive], Bytes(geoms[drive], sector0) + off0, src, done, write, data)
                && (!ok ==> Unreadable(geoms[drive], old(disks[drive]), sector0, Covering(geoms[drive], off0 + len)))
      ensures drive in disks && !write ==> disks[drive] == old(disks[drive])
      ensures ok && drive in geoms ==> bufDrive == Some(drive)
      ensures ok && drive in disks && drive in geoms && !write && len > 0 ==>
                CachedAfter(geoms[drive], old(disks[drive]), sector0, off0 + len, 0, bufTrack)
      ensures drive in geoms && geoms[drive].Valid() && old(bufDrive) == Some(drive)
              && old(FromCache(drive, sector0, off0, len, write)) ==>
                && ok && |data| == len && InBuffer(geoms[drive], old(buffer[..]), sector0, off0, data)
                && bufTrack == old(bufTrack)
    {
      hide Disks, Coherent, Bytes, Marked, Unreadable, Covering, Done, Put, Misses, Missed, CachedAfter, InTrack,
           WholeTrack, Held, TrackHeld, Bad, Offset, FromCache, InBuffer;
      ok, data, done := true, [], 0;
      SameKeys();
      if bufDrive != Some(drive) {
        if drive !in geoms {
          return false, data, 0;
        }
        SwitchDrive(drive);
      }
      BufferedDrive();
      ok, data, done := Transfer(drive, sector0, off0, len, write, src);
      SameKeys();
    }

    /** The transfer proper, piece by piece, once the drive's geometry is in force. */
    method Transfer(drive: nat, sector0: nat, off0: nat, len: nat, write: bool, src: seq<Byte>)
      returns (ok: bool, data: seq<Byte>, ghost done: nat)
      requires Placed() && bufDrive == Some(drive) && drive in disks && drive in geoms && geoms[drive].Valid()
      requires off0 < geoms[drive].sectorSize && (write ==> |src| == len && Coherent())
      modifies this`disks, this`bufTrack, buffer
      ensures Placed() && disks.Keys == old(disks.Keys) && drive in disks && (old(Coherent()) ==> Coherent())
      ensures forall d :: d in disks && d != drive ==> disks[d] == old(disks[d])
      ensures done <= len && (ok ==> done == len)
      ensures old(Coherent()) ==>
                Done(old(disks[drive]), disks[drive], Bytes(geoms[drive], sector0) + off0, src, done, write, data)
      ensures old(Coherent()) && !ok ==>
                Unreadable(geoms[drive], old(disks[drive]), sector0, Covering(geoms[drive], off0 + len))
      ensures !write ==> disks[drive] == old(disks[drive])
      ensures ok && !write && len > 0 ==>
                CachedAfter(geoms[drive], old(disks[drive]), sector0, off0 + len, 0, bufTrack)
      ensures old(FromCache(drive, sector0, off0, len, write)) ==>
                && ok && |data| == len && InBuffer(geoms[drive], old(buffer[..]), sector0, off0, data)
                && bufTrack == old(bufTrack)
    {
      hide Disks, Coherent, Bytes, Marked, Unreadable, Covering, Done, Put, Misses, Missed, CachedAfter, InTrack,
           WholeTrack, Held, TrackHeld, Bad, Offset, FromCache, InBuffer, Cached;
      ok, data, done := true, [], 0;
      SameKeys();
      ghost var before, at := disks[drive], Bytes(geoms[drive], sector0) + off0;
      ghost var coherent, fromCache := Coherent(), FromCache(drive, sector0, off0, len, write);
      FromCacheIs(drive, sector0, off0, len, write);
      NothingDone(before, at, src, write);
      var sector, off, left := sector0, off0, len;
      while left > 0
        invariant Placed() && bufDrive == Some(drive) && drive in disks && disks.Keys == old(disks.Keys)
        invariant forall d :: d in disks && d != drive ==> disks[d] == old(disks[d])
        invariant 0 <= left <= len && done == len - left && off < geoms[drive].sectorSize
        invariant left > 0 ==> Bytes(geoms[drive], sector) + off == at + done && (done > 0 ==> off == 0)
        invariant done == 0 ==> sector == sector0 && off == off0
        invariant coherent ==> Coherent() && Done(before, disks[drive], at, src, done, write, data)
        invariant done == 0 || !write ==> disks[drive] == before
        invariant done > 0 && !write ==> CachedAfter(geoms[drive], before, sector0, off0 + len, left, bufTrack)
        invariant fromCache && left > 0 ==>
                    done == 0 && data == [] && buffer[..] == old(buffer[..]) && Cached(drive, sector0, off0 + len)
        invariant fromCache && left == 0 ==>
                    |data| == len && InBuffer(geoms[drive], old(buffer[..]), sector0, off0, data)
        invariant fromCache ==> bufTrack == old(bufTrack)
        decreases left
      {
        ghost var now, track := disks[drive], bufTrack;
        var size, numSect, piece;
        ok, size, numSect, piece := Piece(drive, sector, off, left, write, if write then src[len - left..] else []);
        if !ok {
          if coherent {
            BadBefore(geoms[drive], before, disks[drive], at, src, done, write, data, sector0, off0, sector, off, left);
          }
          return;
        }
        if done > 0 && !write {
          NotInTrack(geoms[drive], before, sector0, off0 + len, left, track, left - size, bufTrack);
        }
        if coherent {
          DoneMore(before, now, disks[drive], at, src, done, size, write, data, piece);
        }
        data := data + piece;
        sector := sector + numSect;
        off := 0;
        left := left - size;
        done := done + size;
        SameKeys();
        assert fromCache ==> data == piece;
      }
    }

    lemma FromCacheIs(drive: nat, sector: nat, off: nat, len: nat, write: bool)
      requires drive in geoms && geoms[drive].Valid()
      ensures FromCache(drive, sector, off, len, write) ==>
                !write && len > 0 && (geoms[drive].lba || sector < WORD) && Cached(drive, sector, off + len)
    {
      hide Cached;
    }

    lemma SameKeys()
      requires Placed()
      ensures disks.Keys == geoms.Keys && forall d :: d in disks ==> geoms[d].Valid()
    {
    }

    /** The geometry of another drive comes in force, and the cached track is given up. */
    method SwitchDrive(drive: nat)
      requires Placed() && drive in geoms
      modifies this`bufDrive, this`bufTrack
      ensures Valid() && bufDrive == Some(drive) && bufTrack == None
    {
      bufDrive := Some(drive);
      bufTrack := None;
    }

    lemma ValidIs()
      ensures Valid() <==> Placed() && Coherent()
    {
    }

    lemma BufferedDrive()
      requires Placed()
      ensures bufDrive.Some? ==> bufDrive.value in disks && bufDrive.value in geoms
      ensures buffer.Length == BUFFERLEN
    {
    }

    /** A one-sector write hits the cached track behind the sectors that the geometry counts. */
    ghost predicate Missed(drive: nat, sector: nat, data: seq<Byte>)
      requires Valid()
      reads this`disks, this`bufDrive, this`bufTrack, buffer
    {
      bufDrive == Some(drive) && drive in disks && Misses(geoms[drive], disks[drive], bufTrack, sector, data)
    }

    /** Writes one 512-byte sector and refreshes the cached track, which stays right except when the
        write misses it: the refresh measures the track by the drive's geometry, and with sector
        addressing the cached track is longer. */
    method RawWrite(drive: nat, sector: nat, data: seq<Byte>) returns (ok: bool)
      requires Valid() && |data| == 512 && (drive in geoms ==> geoms[drive].sectorSize == 512)
      modifies this`disks, this`bufDrive, this`bufTrack, buffer
      ensures Placed() && disks.Keys == old(disks.Keys)
      ensures forall d :: d in disks && d != drive ==> disks[d] == old(disks[d])
      ensures ok <==> drive in geoms && drive in old(disks)
                      && Bytes(geoms[drive], sector) + 512 <= |old(disks)[drive]|
                      && !Marked(geoms[drive], old(disks)[drive], sector)
      ensures ok ==> drive in disks && disks[drive] == Put(old(disks[drive]), Bytes(geoms[drive], sector), data, 512)
      ensures !ok ==> disks == old(disks)
      ensures Coherent() <==> !(ok && old(Missed(drive, sector, data)))
      ensures old(Missed(drive, sector, data)) ==> buffer[..] == old(buffer[..])
      ensures old(bufDrive) == Some(drive) ==> bufDrive == Some(drive) && bufTrack == old(bufTrack)
    {
      hide Disks, Coherent, Bytes, Marked, Put, Missed;
      ValidIs();
      SameKeys();
      MissedIs(drive, sector, data);
      ghost var missed := Missed(drive, sector, data);
      if bufDrive != Some(drive) {
        if drive !in geoms {
          return false;
        }
        SwitchDrive(drive);
      }
      BufferedDrive();
      CoherentIs(drive);
      assert missed <==> Misses(geoms[drive], disks[drive], bufTrack, sector, data);
      ok := WriteSector(drive, sector, data);
    }

    lemma MissedIs(drive: nat, sector: nat, data: seq<Byte>)
      requires Valid()
      ensures Missed(drive, sector, data) ==> bufDrive == Some(drive) && bufTrack.Some?
      ensures bufDrive == Some(drive) ==> drive in geoms && drive in disks && geoms[drive].Valid()
      ensures bufDrive == Some(drive) ==>
                (Missed(drive, sector, data) <==> Misses(geoms[drive], disks[drive], bufTrack, sector, data))
    {
      ValidIs();
      BufferedDrive();
    }

    /** The write proper, once the drive's geometry is in force. */
    method WriteSector(drive: nat, sector: nat, data: seq<Byte>) returns (ok: bool)
      requires Valid() && bufDrive == Some(drive) && drive in disks && drive in geoms
      requires geoms[drive].Valid() && geoms[drive].sectorSize == 512 == |data|
      requires bufTrack.Some? ==> TrackHeld(geoms[drive], disks[drive], buffer[..], bufTrack.value)
      modifies this`disks, buffer
      ensures Disks() && disks.Keys == old(disks.Keys)
      ensures forall d :: d in disks && d != drive ==> disks[d] == old(disks[d])
      ensures ok <==> Bytes(geoms[drive], sector) + 512 <= |old(disks[drive])|
                      && !Marked(geoms[drive], old(disks[drive]), sector)
      ensures ok ==> disks[drive] == Put(old(disks[drive]), Bytes(geoms[drive], sector), data, 512)
      ensures !ok ==> disks == old(disks)
      ensures Coherent() <==> !(ok && Misses(geoms[drive], old(disks[drive]), bufTrack, sector, data))
      ensures Misses(geoms[drive], old(disks[drive]), bufTrack, sector, data) ==> buffer[..] == old(buffer[..])
    {
      hide Disks, Coherent, Bytes, Marked, Put, TrackHeld;
      ValidIs();
      BufferedDrive();
      var g, disk := geoms[drive], disks[drive];
      var at := Bytes(g, sector);
      if at + 512 > |disk| || Marked(g, disk, sector) {
        return false;
      }
      ok := true;
      if disk[at..at + 512] == data {
        assert data[..512] == data;
        PutSame(disk, at, data, 512);
        return;
      }
      WriteThrough(drive, sector, data);
    }

    method WriteThrough(drive: nat, sector: nat, data: seq<Byte>)
      requires Disks() && bufDrive == Some(drive) && drive in disks && buffer.Length == BUFFERLEN && drive in geoms
      requires geoms[drive].Valid() && geoms[drive].sectorSize == 512 == |data|
      requires bufTrack.Some? ==> TrackHeld(geoms[drive], disks[drive], buffer[..], bufTrack.value)
      requires Bytes(geoms[drive], sector) + 512 <= |disks[drive]|
      requires disks[drive][Bytes(geoms[drive], sector)..Bytes(geoms[drive], sector) + 512] != data
      modifies this`disks, buffer
      ensures Disks() && disks == old(disks)[drive := Put(old(disks[drive]), Bytes(geoms[drive], sector), data, 512)]
      ensures Coherent() <==> !(bufTrack.Some? && bufTrack.value + geoms[drive].sectors <= sector
                                && sector < bufTrack.value + geoms[drive].Track())
      ensures bufTrack.Some? && bufTrack.value + geoms[drive].sectors <= sector ==> buffer[..] == old(buffer[..])
    {
      hide Disks, Coherent, Bytes, Put, TrackHeld;
      var g, disk := geoms[drive], disks[drive];
      ghost var held := buffer[..];
      StoreDisk(drive, Put(disk, Bytes(g, sector), data, 512));
      if bufTrack.Some? && bufTrack.value <= sector && sector - bufTrack.value < g.sectors {
        Refreshed(g, disk, held, bufTrack.value, sector, data);
        PutBuffer(Bytes(g, sector - bufTrack.value), data, 512);
      } else if bufTrack.Some? {
        NotRefreshed(g, disk, held, bufTrack.value, sector, data);
      }
      CoherentIs(drive);
    }

    method StoreDisk(drive: nat, disk: seq<Byte>)
      requires Disks() && drive in disks && |disk| == |disks[drive]|
      modifies this`disks
      ensures Disks() && disks == old(disks)[drive := disk]
    {
      disks := disks[drive := disk];
    }

    lemma CoherentIs(drive: nat)
      requires Disks() && bufDrive == Some(drive) && drive in disks && buffer.Length == BUFFERLEN
      ensures drive in geoms && geoms[drive].Valid()
      ensures Coherent() <==> (bufTrack.Some? ==> TrackHeld(geoms[drive], disks[drive], buffer[..], bufTrack.value))
    {
      hide TrackHeld;
    }
  }

  /** A one-sector write that changes the cached track behind the sectors that the geometry counts. */
  ghost predicate Misses(g: Geometry, disk: seq<Byte>, track: Option<nat>, sector: nat, data: seq<Byte>)
    requires g.sectorSize >= 1
  {
    && track.Some? && track.value + g.sectors <= sector < track.value + g.Track()
    && Bytes(g, sector) + 512 <= |disk|
    && disk[Bytes(g, sector)..Bytes(g, sector) + 512] != data
  }

  /** The buffer holds `n` sectors of the disk, from `sector` on, at byte `at`. */
  ghost predicate Held(g: Geometry, disk: seq<Byte>, buf: seq<Byte>, at: nat, sector: nat, n: nat) {
    && Bytes(g, sector) <= Bytes(g, sector + n) <= |disk| && at + Bytes(g, n) <= |buf|
    && Bytes(g, sector) + Bytes(g, n) == Bytes(g, sector + n)
    && buf[at..at + Bytes(g, n)] == disk[Bytes(g, sector)..Bytes(g, sector + n)]
  }

  /** The bytes that the buffer has for a place in a sector's track. */
  ghost predicate InBuffer(g: Geometry, buf: seq<Byte>, sector: nat, off: nat, data: seq<Byte>) {
    && g.sectorSize >= 1 && g.Track() >= 1
    && var at := Bytes(g, Offset(g, sector)) + off;
    && at + |data| <= |buf| && data == buf[at..at + |data|]
  }

  ghost predicate TrackHeld(g: Geometry, disk: seq<Byte>, buf: seq<Byte>, track: nat)
    requires g.sectorSize >= 1
  {
    g.Track() >= 1 && track % g.Track() == 0 && Held(g, disk, buf, 0, track, g.Track())
  }

  /** A sector behind the end of the disk, or one that begins with the mark. */
  predicate Bad(g: Geometry, disk: seq<Byte>, sector: nat) {
    Bytes(g, sector + 1) > |disk| || Marked(g, disk, sector)
  }

  /** Some sector of a request cannot be read. */
  ghost predicate Unreadable(g: Geometry, disk: seq<Byte>, sector: nat, n: nat) {
    exists s: nat :: sector <= s < sector + n && Bad(g, disk, s)
  }

  /** The whole track can be read at once. */
  predicate WholeTrack(g: Geometry, disk: seq<Byte>, track: nat)
    requires g.sectorSize >= 1 && g.Track() >= 1
  {
    Bytes(g, track + g.Track()) <= |disk| && !Marked(g, disk, track + g.Track() - 1)
  }

  lemma WholeTrackIs(g: Geometry, disk: seq<Byte>, track: int)
    requires g.sectorSize >= 1 && g.Track() >= 1
    ensures track >= 0 ==>
              (WholeTrack(g, disk, track) <==>
                 Bytes(g, track + g.Track()) <= |disk| && !Marked(g, disk, track + g.Track() - 1))
  {
    hide Bytes, Marked;
  }

  /** `n` bytes from the start of a sector lie in one track that can be read at once. */
  predicate InTrack(g: Geometry, disk: seq<Byte>, sector: nat, n: nat)
    requires g.Valid()
  {
    TrackFits(g);
    OffsetBelow(g, sector);
    && Covering(g, n) <= g.Track() - Offset(g, sector)
    && WholeTrack(g, disk, sector - Offset(g, sector))
  }

  /** After a read within one track that track is cached, and nothing is left to read. */
  ghost predicate CachedAfter(g: Geometry, disk: seq<Byte>, sector: nat, n: nat, left: int, track: Option<nat>) {
    g.Valid() && InTrack(g, disk, sector, n) ==> left == 0 && track == Some(sector - Offset(g, sector))
  }

  lemma NotInTrack(g: Geometry, disk: seq<Byte>, sector: nat, n: nat, left: int, track: Option<nat>, left': int,
                   track': Option<nat>)
    requires CachedAfter(g, disk, sector, n, left, track) && left != 0
    ensures CachedAfter(g, disk, sector, n, left', track')
  {
    hide InTrack;
  }

  lemma InTrackIs(g: Geometry, disk: seq<Byte>, sector: nat, off: nat, left: nat)
    requires g.Valid() && left > 0
    ensures g.Track() >= 1 && Offset(g, sector) <= sector
    ensures InTrack(g, disk, sector, off + left) ==>
              && left <= BUFFERLEN && Covering(g, off + left) <= g.Track() - Offset(g, sector)
              && WholeTrack(g, disk, sector - Offset(g, sector))
              && off + left <= Bytes(g, g.Track() - Offset(g, sector))
  {
    hide Bytes, Covering, WholeTrack;
    TrackFits(g);
    OffsetBelow(g, sector);
    if InTrack(g, disk, sector, off + left) {
      CoveringIs(g, off + left);
      BytesAdd(g, Covering(g, off + left), g.Track() - Offset(g, sector) - Covering(g, off + left));
      BytesAdd(g, g.Track() - Offset(g, sector), Offset(g, sector));
    }
  }

  lemma Blocked(g: Geometry, disk: seq<Byte>, sector: nat, k: nat, n: nat)
    requires 0 < k <= n
    requires Bytes(g, sector + k) > |disk| || Marked(g, disk, sector + k - 1)
    ensures Unreadable(g, disk, sector, n)
  {
    hide Bytes, Marked;
    assert Bad(g, disk, sector + k - 1);
  }

  lemma TrackStarts(g: Geometry, sector: nat)
    requires g.sectorSize >= 1 && g.Track() >= 1
    ensures Offset(g, sector) <= sector && (sector - Offset(g, sector)) % g.Track() == 0
  {
    Offset127Exact(sector);
    Multiple(sector, g.Track());
  }

  lemma Multiple(x: nat, n: nat)
    requires n >= 1
    ensures x % n <= x && (x - x % n) % n == 0
  {
    DivNat(x, n);
    assert x == n * (x / n) + x % n;
    DivUnique(x - x % n, n, x / n, 0);
  }

  lemma HeldPart(g: Geometry, disk: seq<Byte>, buf: seq<Byte>, track: nat, soff: nat, spv: nat)
    requires Held(g, disk, buf, 0, track, spv) && soff <= spv
    ensures Held(g, disk, buf, Bytes(g, soff), track + soff, spv - soff)
  {
    hide Bytes;
    BytesAdd(g, soff, spv - soff);
    BytesAdd(g, track, soff);
    BytesAdd(g, track + soff, spv - soff);
    var a, n := Bytes(g, track), Bytes(g, spv);
    assert buf[Bytes(g, soff)..n] == buf[0..n][Bytes(g, soff)..];
    assert disk[Bytes(g, track + soff)..Bytes(g, track + spv)] == disk[a..Bytes(g, track + spv)][Bytes(g, soff)..];
  }

  /** `done` bytes from `at` on have been read into `data`, or written from `src`. */
  ghost predicate Done(before: seq<Byte>, disk: seq<Byte>, at: nat, src: seq<Byte>, done: nat, write: bool,
                       data: seq<Byte>) {
    && (done > 0 ==> at + done <= |before|)
    && (done == 0 ==> disk == before && data == [])
    && if write then done <= |src| && (done > 0 ==> disk == Put(before, at, src, done))
       else disk == before && (done > 0 ==> data == before[at..at + done])
  }

  /** Byte by byte: a read delivers what the sectors hold and changes nothing; a write changes just the bytes
      that it names. */
  lemma DoneIs(g: Geometry, before: seq<Byte>, disk: seq<Byte>, sector: nat, off: nat, src: seq<Byte>, done: nat,
               write: bool, data: seq<Byte>)
    requires Done(before, disk, Bytes(g, sector) + off, src, done, write, data)
    ensures var at := sector * g.sectorSize + off;
            && |disk| == |before| && (done > 0 ==> at + done <= |before|)
            && (!write ==> disk == before && |data| == done && forall i :: 0 <= i < done ==> data[i] == before[at + i])
            && (write ==> done <= |src| && forall i :: 0 <= i < |disk| ==>
                  disk[i] == if at <= i < at + done then src[i - at] else before[i])
  {
  }

  /** A sector is bad if it ends behind the disk or begins with four times `BAD?`. */
  lemma BadIs(g: Geometry, disk: seq<Byte>, sector: nat)
    requires g.sectorSize >= 16
    ensures var at := Bytes(g, sector);
            Bad(g, disk, sector) <==>
              || at + g.sectorSize > |disk|
              || forall i :: 0 <= i < 16 ==>
                   disk[at + i] == if i % 4 == 0 then 66 else if i % 4 == 1 then 65 else if i % 4 == 2 then 68 else 63
  {
    hide Bytes;
    BytesAdd(g, sector, 1);
    if Bytes(g, sector) + g.sectorSize <= |disk| {
      MarkIs(disk, Bytes(g, sector));
    }
  }

  lemma MarkIs(disk: seq<Byte>, at: nat)
    requires at + 16 <= |disk|
    ensures disk[at..at + 16] == BAD_MARK <==> forall i :: 0 <= i < 16 ==>
              disk[at + i] == if i % 4 == 0 then 66 else if i % 4 == 1 then 65 else if i % 4 == 2 then 68 else 63
  {
    var t := disk[at..at + 16];
    forall i | 0 <= i < 16
      ensures t[i] == disk[at + i]
      ensures BAD_MARK[i] == if i % 4 == 0 then 66 else if i % 4 == 1 then 65 else if i % 4 == 2 then 68 else 63
    {
    }
    if forall i :: 0 <= i < 16 ==>
         disk[at + i] == if i % 4 == 0 then 66 else if i % 4 == 1 then 65 else if i % 4 == 2 then 68 else 63 {
      assert t == BAD_MARK;
    }
  }

  lemma NothingDone(disk: seq<Byte>, at: nat, src: seq<Byte>, write: bool)
    ensures Done(disk, disk, at, src, 0, write, [])
  {
  }

  lemma PutSame(disk: seq<Byte>, at: nat, src: seq<Byte>, size: nat)
    requires size <= |src| && at + size <= |disk| && disk[at..at + size] == src[..size]
    ensures Put(disk, at, src, size) == disk
  {
    assert disk == disk[..at] + disk[at..at + size] + disk[at + size..];
  }

  /** Writing back whole sectors changes only the bytes that were changed in the buffer. */
  lemma WrittenBack(disk: seq<Byte>, held: seq<Byte>, a: nat, b: nat, n: nat, off: nat, src: seq<Byte>, size: nat)
    requires off + size <= n && a + n <= |disk| && b + n <= |held| && size <= |src|
    requires held[b..b + n] == disk[a..a + n]
    ensures disk[..a] + Put(held, b + off, src, size)[b..b + n] + disk[a + n..] == Put(disk, a + off, src, size)
  {
    var changed := Put(held, b + off, src, size);
    var mid := held[b..b + n][..off] + src[..size] + held[b..b + n][off + size..];
    forall i | 0 <= i < n
      ensures changed[b..b + n][i] == mid[i]
    {
      assert changed[b..b + n][i] == changed[b + i];
    }
    assert changed[b..b + n] == mid;
    Around(disk, a, n, off, off + size);
  }

  lemma HeldRange(g: Geometry, disk: seq<Byte>, buf: seq<Byte>, at: nat, sector: nat, n: nat, off: nat, size: nat)
    requires Held(g, disk, buf, at, sector, n) && off + size <= Bytes(g, n)
    ensures at + off + size <= |buf| && Bytes(g, sector) + off + size <= |disk|
    ensures buf[at + off..at + off + size] == disk[Bytes(g, sector) + off..Bytes(g, sector) + off + size]
  {
    hide Bytes;
    var d, m := Bytes(g, sector), Bytes(g, n);
    SubSlice(buf, at, m, off, size);
    SubSlice(disk, d, m, off, size);
    assert disk[d..d + m] == buf[at..at + m];
  }

  lemma CoveringMono(g: Geometry, a: nat, b: nat)
    requires g.sectorSize >= 1 && a <= b
    ensures Covering(g, a) <= Covering(g, b)
  {
    hide Bytes, Covering;
    CoveringIs(g, a);
    CoveringIs(g, b);
    if Covering(g, b) < Covering(g, a) {
      BytesAdd(g, Covering(g, b), 1);
      BytesAdd(g, Covering(g, b) + 1, Covering(g, a) - Covering(g, b) - 1);
    }
  }

  lemma UnreadableMore(g: Geometry, disk: seq<Byte>, sector: nat, n: nat, m: nat)
    requires Unreadable(g, disk, sector, n) && n <= m
    ensures Unreadable(g, disk, sector, m)
  {
  }

  lemma DoneMore(before: seq<Byte>, now: seq<Byte>, next: seq<Byte>, at: nat, src: seq<Byte>, done: nat, size: nat,
                 write: bool, data: seq<Byte>, piece: seq<Byte>)
    requires Done(before, now, at, src, done, write, data) && size > 0 && at + done + size <= |now|
    requires write ==> |src| >= done + size && next == Put(now, at + done, src[done..], size) && piece == []
    requires !write ==> next == now && piece == now[at + done..at + done + size]
    ensures Done(before, next, at, src, done + size, write, data + piece)
  {
    if write {
      if done > 0 {
        PutTwice(before, at, src, done, size);
      } else {
        assert src[0..] == src;
      }
    }
  }

  lemma PutTwice(disk: seq<Byte>, at: nat, src: seq<Byte>, n: nat, m: nat)
    requires n + m <= |src| && at + n + m <= |disk|
    ensures Put(Put(disk, at, src, n), at + n, src[n..], m) == Put(disk, at, src, n + m)
  {
    var once := Put(disk, at, src, n);
    assert once[..at + n] == disk[..at] + src[..n];
    assert once[at + n + m..] == disk[at + n + m..];
    assert src[..n] + src[n..][..m] == src[..n + m];
  }

  /** What cannot be read later could not be read at the beginning either. */
  lemma BadBefore(g: Geometry, before: seq<Byte>, now: seq<Byte>, at: nat, src: seq<Byte>, done: nat, write: bool,
                  data: seq<Byte>, sector0: nat, off0: nat, sector: nat, off: nat, left: nat)
    requires g.sectorSize >= 1 && Done(before, now, at, src, done, write, data) && left > 0
    requires at == Bytes(g, sector0) + off0 && Bytes(g, sector) + off == at + done
    requires if done == 0 then sector == sector0 && off == off0 else off == 0
    requires Unreadable(g, now, sector, Covering(g, off + left))
    ensures Unreadable(g, before, sector0, Covering(g, off0 + (done + left)))
  {
    hide Covering, Bytes;
    if done > 0 {
      var s: nat :| sector <= s < sector + Covering(g, off + left) && Bad(g, now, s);
      BytesAdd(g, sector, s - sector);
      StillBad(g, before, now, at, src, done, write, data, s);
      CoveringIs(g, off + left);
      CoveringIs(g, off0 + (done + left));
      var n0 := Covering(g, off0 + (done + left));
      BytesAdd(g, sector, Covering(g, left));
      BytesAdd(g, sector0, n0);
      BytesAdd(g, sector0 + n0, 1);
      BytesBelow(g, sector + Covering(g, left), sector0 + n0 + 1);
      BytesBelow(g, sector0, sector);
    }
  }

  lemma StillBad(g: Geometry, before: seq<Byte>, now: seq<Byte>, at: nat, src: seq<Byte>, done: nat, write: bool,
                 data: seq<Byte>, s: nat)
    requires Done(before, now, at, src, done, write, data) && done > 0 && at + done <= Bytes(g, s)
    requires Bad(g, now, s)
    ensures Bad(g, before, s)
  {
    hide Bytes;
    if write {
      var b := Bytes(g, s);
      assert now[at + done..] == before[at + done..];
      if b + 16 <= |now| {
        assert now[b..b + 16] == now[at + done..][b - at - done..b + 16 - at - done];
        assert before[b..b + 16] == before[at + done..][b - at - done..b + 16 - at - done];
      }
    }
  }

  lemma TrackHeldIs(g: Geometry, disk: seq<Byte>, buf: seq<Byte>, track: nat)
    requires g.Valid() && g.sectorSize == 512
    ensures TrackHeld(g, disk, buf, track) <==>
            && track % g.Track() == 0 && 512 * track + 512 * g.Track() <= |disk| && 512 * g.Track() <= |buf|
            && buf[0..512 * g.Track()] == disk[512 * track..512 * track + 512 * g.Track()]
  {
  }

  lemma PutBoth(disk: seq<Byte>, buf: seq<Byte>, t: nat, n: nat, k: nat, data: seq<Byte>)
    requires t + n <= |disk| && n <= |buf| && buf[0..n] == disk[t..t + n] && |data| == 512
    requires (k + 512 <= n || n <= k) && t + k + 512 <= |disk| && k + 512 <= |buf|
    ensures Put(buf, k, data, 512)[0..n] == Put(disk, t + k, data, 512)[t..t + n]
  {
    var b, d := Put(buf, k, data, 512)[0..n], Put(disk, t + k, data, 512)[t..t + n];
    forall i | 0 <= i < n
      ensures b[i] == d[i]
    {
      assert buf[0..n][i] == disk[t..t + n][i];
    }
  }

  lemma PutOutside(disk: seq<Byte>, t: nat, n: nat, at: nat, data: seq<Byte>)
    requires t + n <= |disk| && at + 512 <= |disk| && |data| == 512 && (at + 512 <= t || t + n <= at)
    ensures Put(disk, at, data, 512)[t..t + n] == disk[t..t + n]
  {
    var a, b := Put(disk, at, data, 512)[t..t + n], disk[t..t + n];
    forall i | 0 <= i < n
      ensures a[i] == b[i]
    {
      assert b[i] == disk[t + i];
    }
  }

  lemma PutInside(disk: seq<Byte>, t: nat, n: nat, at: nat, data: seq<Byte>)
    requires t + n <= |disk| && |data| == 512 && t <= at && at + 512 <= t + n && disk[at..at + 512] != data
    ensures Put(disk, at, data, 512)[t..t + n] != disk[t..t + n]
  {
    var i :| 0 <= i < 512 && disk[at..at + 512][i] != data[i];
    assert Put(disk, at, data, 512)[at + i] == data[i];
    assert Put(disk, at, data, 512)[t..t + n][at + i - t] != disk[t..t + n][at + i - t];
  }

  lemma Refreshed(g: Geometry, disk: seq<Byte>, buf: seq<Byte>, track: nat, sector: nat, data: seq<Byte>)
    requires g.Valid() && g.sectorSize == 512 == |data| && |buf| == BUFFERLEN
    requires TrackHeld(g, disk, buf, track) && track <= sector < track + g.sectors
    requires Bytes(g, sector) + 512 <= |disk|
    ensures Bytes(g, sector - track) + 512 <= BUFFERLEN
    ensures TrackHeld(g, Put(disk, Bytes(g, sector), data, 512), Put(buf, Bytes(g, sector - track), data, 512), track)
  {
    hide TrackHeld, Put;
    TrackHeldIs(g, disk, buf, track);
    PutBoth(disk, buf, 512 * track, 512 * g.Track(), 512 * (sector - track), data);
    TrackHeldIs(g, Put(disk, Bytes(g, sector), data, 512), Put(buf, Bytes(g, sector - track), data, 512), track);
  }

  lemma NotRefreshed(g: Geometry, disk: seq<Byte>, buf: seq<Byte>, track: nat, sector: nat, data: seq<Byte>)
    requires g.Valid() && g.sectorSize == 512 == |data| && |buf| == BUFFERLEN
    requires TrackHeld(g, disk, buf, track) && !(track <= sector < track + g.sectors)
    requires Bytes(g, sector) + 512 <= |disk| && disk[Bytes(g, sector)..Bytes(g, sector) + 512] != data
    ensures TrackHeld(g, Put(disk, Bytes(g, sector), data, 512), buf, track)
       <==> !(track + g.sectors <= sector < track + g.Track())
  {
    hide TrackHeld, Put;
    TrackHeldIs(g, disk, buf, track);
    TrackHeldIs(g, Put(disk, Bytes(g, sector), data, 512), buf, track);
    if track <= sector < track + g.Track() {
      PutInside(disk, 512 * track, 512 * g.Track(), 512 * sector, data);
    } else {
      PutOutside(disk, 512 * track, 512 * g.Track(), 512 * sector, data);
    }
  }

  // ---- a cache that is wrong

  function Blank(n: nat): (s: seq<Byte>)
    ensures |s| == n && forall i :: 0 <= i < n ==> s[i] == 0
  {
    seq(n, i => 0)
  }

  /** A blank disk of one track of 127 sectors, on a drive addressed by sector number whose geometry counts
      63. */
  const LBA_DRIVE: Geometry := Geometry(512, 63, true)

  lemma BlankTrack()
    ensures LBA_DRIVE.Valid() && LBA_DRIVE.Track() == 127 && Offset(LBA_DRIVE, 0) == 0 && Offset(LBA_DRIVE, 100) == 100
    ensures Bytes(LBA_DRIVE, 127) == 65024 && Bytes(LBA_DRIVE, 100) == 51200 && Bytes(LBA_DRIVE, 1) == 512
    ensures Covering(LBA_DRIVE, 512) == 1
    ensures forall s :: 0 <= s < 127 ==> !Bad(LBA_DRIVE, Blank(65024), s)
    ensures InTrack(LBA_DRIVE, Blank(65024), 0, 512)
  {
    hide Marked;
    var disk := Blank(65024);
    forall s | 0 <= s < 127
      ensures !Bad(LBA_DRIVE, disk, s)
    {
      BytesAdd(LBA_DRIVE, s + 1, 126 - s);
      BlankUnmarked(LBA_DRIVE, 65024, s);
    }
    assert !Bad(LBA_DRIVE, disk, 126);
  }

  lemma BlankUnmarked(g: Geometry, n: nat, s: nat)
    ensures !Marked(g, Blank(n), s)
  {
    var disk, at := Blank(n), Bytes(g, s);
    if at + 16 <= |disk| {
      assert disk[at..at + 16][0] == 0 != BAD_MARK[0];
    }
  }

  lemma PutFirst(disk: seq<Byte>, at: nat, src: seq<Byte>, len: nat)
    requires 0 < len <= |src| && at + len <= |disk|
    ensures Put(disk, at, src, len)[at] == src[0]
  {
  }

  /** On such a disk the first sector can be read, which caches the track. */
  lemma BlankRead(track: Option<nat>)
    ensures !Unreadable(LBA_DRIVE, Blank(65024), 0, Covering(LBA_DRIVE, 512))
    ensures CachedAfter(LBA_DRIVE, Blank(65024), 0, 512, 0, track) ==> track == Some(0)
  {
    hide Bytes, Covering, InTrack, Bad, Marked, Offset;
    BlankTrack();
  }

  /** A write of sector 100 misses the cached track. */
  lemma BlankWrite(data: seq<Byte>)
    requires |data| == 512 && data[0] == 1
    ensures !Marked(LBA_DRIVE, Blank(65024), 100) && Misses(LBA_DRIVE, Blank(65024), Some(0), 100, data)
    ensures Bytes(LBA_DRIVE, 100) == 51200 && Put(Blank(65024), 51200, data, 512)[51200] == 1
  {
    hide Bytes, Put, Marked;
    BlankTrack();
    BlankUnmarked(LBA_DRIVE, 65024, 100);
    PutFirst(Blank(65024), 51200, data, 512);
    assert Blank(65024)[51200..51712][0] == 0;
  }

  /** What is cached of the blank track is blank. */
  lemma BlankCached(c: DiskCache)
    requires c.Valid() && 0 in c.disks && c.disks[0] == Blank(65024) && 0 in c.geoms && c.geoms[0] == LBA_DRIVE
    requires c.bufDrive == Some(0) && c.bufTrack == Some(0)
    ensures c.buffer.Length >= 65024 && c.buffer[51200] == 0
  {
    hide Offset, Blank;
    BlankTrack();
    TrackHeldIs(LBA_DRIVE, Blank(65024), c.buffer[..], 0);
    assert c.buffer[0..65024][51200] == Blank(65024)[0..65024][51200];
  }

  lemma MissedHere(c: DiskCache, data: seq<Byte>)
    requires c.Valid() && 0 in c.disks && 0 in c.geoms && c.geoms[0] == LBA_DRIVE
    requires c.bufDrive == Some(0) && c.bufTrack == Some(0) && Misses(LBA_DRIVE, c.disks[0], Some(0), 100, data)
    ensures c.Missed(0, 100, data)
  {
    hide Misses;
  }

  /** Sector 100 counts as cached. */
  lemma StillFromCache(c: DiskCache)
    requires 0 in c.geoms && c.geoms[0] == LBA_DRIVE && c.bufTrack == Some(0)
    ensures LBA_DRIVE.Valid() && c.FromCache(0, 100, 0, 512, false)
  {
    hide Offset;
    BlankTrack();
  }

  lemma FirstInBuffer(buf: seq<Byte>, data: seq<Byte>)
    requires InBuffer(LBA_DRIVE, buf, 100, 0, data) && |data| == 512
    ensures |buf| > 51200 && data[0] == buf[51200]
  {
    hide Offset;
    BlankTrack();
  }

  /** Sector 0 is read, which caches the track. */
  method CacheBlank() returns (c: DiskCache)
    ensures c.Valid() && c.geoms == map[0 := LBA_DRIVE] && c.disks == map[0 := Blank(65024)]
    ensures c.bufDrive == Some(0) && c.bufTrack == Some(0) && fresh(c) && fresh(c.buffer)
  {
    hide Bytes, Covering, InTrack, Put, Offset, Marked, Done, CachedAfter, Unreadable, Misses, TrackHeld, Blank,
         InBuffer, DiskCache.FromCache, DiskCache.Cached, DiskCache.Coherent, DiskCache.Missed;
    c := new DiskCache(map[0 := LBA_DRIVE], map[0 := Blank(65024)]);
    c.ValidIs();
    var ok, first, done := c.RawRead(0, 0, 0, 512, false, []);
    BlankRead(c.bufTrack);
  }

  /** Then sector 100 is written, and read again. The disk has changed, but the read gives the byte of
      before. */
  method StaleTrack() returns (c: DiskCache, data: seq<Byte>)
    ensures c.Placed() && c.bufDrive == Some(0) && c.bufTrack == Some(0) && 0 in c.disks && |c.disks[0]| == 65024
    ensures c.disks[0][51200] == 1 && |data| == 512 && data[0] == 0
  {
    hide Bytes, Covering, InTrack, Put, Offset, Marked, Done, CachedAfter, Unreadable, Misses, TrackHeld, Blank,
         InBuffer, DiskCache.FromCache, DiskCache.Cached, DiskCache.Coherent, DiskCache.Missed;
    var written: seq<Byte> := [1] + seq(511, i => 1);
    c := CacheBlank();
    BlankWrite(written);
    BlankCached(c);
    MissedHere(c, written);
    ghost var buf := c.buffer[..];
    var ok := c.RawWrite(0, 100, written);
    StillFromCache(c);
    ghost var done;
    ok, data, done := c.RawRead(0, 100, 0, 512, false, []);
    FirstInBuffer(buf, data);
  }

  /** What was written is read back. */
  method WrittenReadBack(c: DiskCache, drive: nat, sector: nat, off: nat, src: seq<Byte>)
    returns (ok: bool, data: seq<Byte>)
    requires c.Valid() && drive in c.geoms && off < c.geoms[drive].sectorSize
    modifies c`disks, c`bufDrive, c`bufTrack, c.buffer
    ensures c.Valid() && (ok ==> data == src)
  {
    hide Bytes, Bad, Covering, Unreadable, Done, DiskCache.Coherent, DiskCache.Disks, CachedAfter, InBuffer,
         DiskCache.FromCache;
    c.ValidIs();
    c.SameKeys();
    ghost var at, before := Bytes(c.geoms[drive], sector) + off, c.disks[drive];
    var got;
    ghost var done;
    ok, got, done := c.RawRead(drive, sector, off, |src|, true, src);
    if ok {
      c.ValidIs();
      c.SameKeys();
      ghost var between := c.disks[drive];
      assert Done(before, between, at, src, |src|, true, got);
      ok, data, done := c.RawRead(drive, sector, off, |src|, false, []);
      if ok {
        ReadBack(before, between, c.disks[drive], at, src, got, data);
      }
    } else {
      data := [];
    }
  }

  lemma ReadBack(before: seq<Byte>, between: seq<Byte>, now: seq<Byte>, at: nat, src: seq<Byte>, got: seq<Byte>,
                 data: seq<Byte>)
    requires Done(before, between, at, src, |src|, true, got) && Done(between, now, at, [], |src|, false, data)
    ensures data == src
  {
    if src != [] {
      assert between == before[..at] + src + before[at + |src|..];
      assert between[at..at + |src|] == src;
    }
  }
}
