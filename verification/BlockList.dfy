/** Reading a file given as a list of extents: the cursor that remembers where the last read stood. */
module BlockList {
  import opened Words
  import opened Arith
  import opened Slices

  const MAX_PIECE: nat := 0x4000_0000

  /** `length` sectors from sector `start` on. */
  datatype Extent = Extent(start: nat, length: nat)

  /** Sectors in a list of extents. */
  function Sectors(list: seq<Extent>): nat {
    if list == [] then 0 else Sectors(list[..|list| - 1]) + list[|list| - 1].length
  }

  /** The file: its extents one after the other. */
  function Contents(disk: seq<Byte>, ss: nat, list: seq<Extent>): (f: seq<Byte>)
    requires OnDisk(disk, ss, list)
    ensures |f| == Times(Sectors(list), ss)
  {
    if list == [] then TimesZero(ss); []
    else
      var last := list[|list| - 1];
      PlusTimes(Sectors(list[..|list| - 1]), last.length, ss);
      PlusTimes(last.start, last.length, ss);
      Contents(disk, ss, list[..|list| - 1]) + disk[Times(last.start, ss)..Times(last.start + last.length, ss)]
  }

  predicate OnDisk(disk: seq<Byte>, ss: nat, list: seq<Extent>) {
    forall i :: 0 <= i < |list| ==> list[i].length > 0 && Times(list[i].start + list[i].length, ss) <= |disk|
  }

  lemma TimesZero(ss: nat)
    ensures Times(0, ss) == 0
  {
  }

  lemma PlusTimes(a: nat, b: nat, ss: nat)
    ensures Times(a + b, ss) == Times(a, ss) + Times(b, ss)
  {
  }

  lemma {:induction false} SectorsSplit(list: seq<Extent>, i: nat)
    requires i < |list|
    ensures Sectors(list[..i + 1]) == Sectors(list[..i]) + list[i].length
    ensures Sectors(list[..0]) == 0
  {
    assert list[..i + 1][..i] == list[..i];
  }

  lemma {:induction false} SectorsMono(list: seq<Extent>, i: nat, j: nat)
    requires i <= j <= |list|
    ensures Sectors(list[..i]) <= Sectors(list[..j])
    decreases j
  {
    if i < j {
      SectorsSplit(list, j - 1);
      SectorsMono(list, i, j - 1);
    }
  }

  lemma ContentsStep(disk: seq<Byte>, ss: nat, list: seq<Extent>)
    requires OnDisk(disk, ss, list) && list != []
    ensures OnDisk(disk, ss, list[..|list| - 1])
    ensures var last := list[|list| - 1];
            && Times(last.start, ss) <= Times(last.start + last.length, ss) <= |disk|
            && Contents(disk, ss, list) == Contents(disk, ss, list[..|list| - 1])
                                           + disk[Times(last.start, ss)..Times(last.start + last.length, ss)]
  {
    PlusTimes(list[|list| - 1].start, list[|list| - 1].length, ss);
  }

  /** The part of the file that lies in extent `i`. */
  lemma {:induction false} ContentsAt(disk: seq<Byte>, ss: nat, list: seq<Extent>, i: nat)
    requires OnDisk(disk, ss, list) && i < |list|
    ensures var a, b := Times(Sectors(list[..i]), ss), Times(Sectors(list[..i + 1]), ss);
            && a <= b <= |Contents(disk, ss, list)|
            && Times(list[i].start, ss) <= Times(list[i].start + list[i].length, ss) <= |disk|
            && Contents(disk, ss, list)[a..b]
              == disk[Times(list[i].start, ss)..Times(list[i].start + list[i].length, ss)]
    decreases |list|
  {
    hide Times, Contents, Sectors, OnDisk;
    var n := |list| - 1;
    SectorsSplit(list, i);
    PlusTimes(Sectors(list[..i]), list[i].length, ss);
    PlusTimes(list[i].start, list[i].length, ss);
    ContentsStep(disk, ss, list);
    if i == n {
      assert list[..n + 1] == list;
    } else {
      ContentsAt(disk, ss, list[..n], i);
      assert list[..n][..i] == list[..i] && list[..n][..i + 1] == list[..i + 1];
    }
  }

  class Cursor {
    const disk: seq<Byte>
    const ss: nat
    const list: seq<Extent>
    var filepos: nat
    var curFilepos: nat
    var curList: nat
    var curNum: nat

    /** The cursor names the extent and the sector in it that hold the remembered position. */
    ghost predicate Valid()
      reads this
    {
      && ss > 0 && OnDisk(disk, ss, list)
      && curList < |list| && curNum < list[curList].length
      && Sectors(list[..curList]) + curNum == curFilepos / ss
    }

    ghost function File(): seq<Byte>
      requires OnDisk(disk, ss, list)
    {
      Contents(disk, ss, list)
    }

    constructor (d: seq<Byte>, sectorSize: nat, l: seq<Extent>)
      requires sectorSize > 0 && l != [] && OnDisk(d, sectorSize, l)
      ensures Valid() && filepos == 0 && disk == d && ss == sectorSize && list == l
    {
      disk, ss, list := d, sectorSize, l;
      filepos, curFilepos, curList, curNum := 0, 0, 0, 0;
    }

    /** Moves the cursor forward by a number of sectors. */
    method Advance(n: nat)
      requires ss > 0 && OnDisk(disk, ss, list) && curList < |list| && curNum < list[curList].length
      requires Sectors(list[..curList]) + curNum + n < Sectors(list)
      modifies this`curList, this`curNum
      ensures curList < |list| && curNum < list[curList].length
      ensures Sectors(list[..curList]) + curNum == old(Sectors(list[..curList]) + curNum) + n
    {
      var tmp := n;
      assert list[..|list|] == list;
      while tmp > 0
        invariant 0 <= tmp && curList < |list| && curNum < list[curList].length
        invariant Sectors(list[..curList]) + curNum + tmp == old(Sectors(list[..curList]) + curNum) + n
        decreases tmp
      {
        var i := list[curList].length - curNum;
        SectorsSplit(list, curList);
        if i > tmp {
          curNum := curNum + tmp;
          break;
        } else {
          SectorsMono(list, curList + 1, |list|);
          tmp := tmp - i;
          curList := curList + 1;
          curNum := 0;
        }
      }
    }

    /** Reads from the current file position on. */
    method Read(len0: nat) returns (ret: nat, data: seq<Byte>)
      requires Valid() && filepos + len0 <= |File()|
      modifies this
      ensures Valid() && ret == len0 && filepos == old(filepos) + len0
      ensures data == File()[old(filepos)..filepos]
    {
      hide Sectors, Contents, OnDisk, Times;
      ret, data := 0, [];
      var len := len0;
      while len > 0
        invariant Valid() && 0 <= len && ret == len0 - len && filepos == old(filepos) + ret
        invariant filepos + len <= |File()| && data == File()[old(filepos)..filepos]
        decreases len
      {
        Seek();
        var off := filepos % ss;
        var e := list[curList];
        RoomLeft();
        var tmp := Times(e.length - curNum, ss) - off;
        if tmp > MAX_PIECE {
          tmp := MAX_PIECE;
        }
        var size := if tmp > len then len else tmp;
        PieceIs(size);
        var at := Times(e.start + curNum, ss) + off;
        Glue(File(), old(filepos), filepos, size);
        data := data + disk[at..at + size];
        len := len - size;
        filepos := filepos + size;
        ret := ret + size;
      }
    }

    /** Brings the cursor to the file position. */
    method Seek()
      requires Valid() && filepos < |File()|
      modifies this`curFilepos, this`curList, this`curNum
      ensures Valid() && curFilepos == filepos
    {
      hide Sectors, Contents, OnDisk;
      if filepos < curFilepos {
        curFilepos, curList, curNum := 0, 0, 0;
        AtStart();
      }
      if filepos > curFilepos {
        var tmp := filepos - (curFilepos - curFilepos % ss);
        tmp := tmp / ss;
        SectorSteps(curFilepos, filepos, ss);
        DivBelow(filepos, Sectors(list), ss);
        Advance(tmp);
        curFilepos := filepos;
      }
    }

    lemma AtStart()
      requires ss > 0 && OnDisk(disk, ss, list) && list != [] && curFilepos == 0 && curList == 0 && curNum == 0
      ensures Valid()
    {
    }

    /** What the sectors at the cursor hold of the file. */
    lemma PieceIs(size: nat)
      requires Valid() && curFilepos == filepos && filepos + size <= |File()|
      requires size <= Times(list[curList].length - curNum, ss) - filepos % ss
      ensures var at := Times(list[curList].start + curNum, ss) + filepos % ss;
              at + size <= |disk| && disk[at..at + size] == File()[filepos..filepos + size]
    {
      hide Times, Sectors, Contents, OnDisk;
      var e, b, off := list[curList], Sectors(list[..curList]), filepos % ss;
      ContentsAt(disk, ss, list, curList);
      SectorsSplit(list, curList);
      PlusTimes(b, e.length, ss);
      PlusTimes(b, curNum, ss);
      PlusTimes(e.start, e.length, ss);
      PlusTimes(e.start, curNum, ss);
      PlusTimes(curNum, e.length - curNum, ss);
      WholeSectors(filepos, ss);
      var k := Times(curNum, ss) + off;
      var n := Times(e.length, ss);
      SubSlice(File(), Times(b, ss), n, k, size);
      SubSlice(disk, Times(e.start, ss), n, k, size);
    }

    /** At least one byte is left in the sector at the cursor. */
    lemma RoomLeft()
      requires Valid() && curFilepos == filepos
      ensures filepos % ss < Times(list[curList].length - curNum, ss)
    {
      hide Times, Sectors, Contents, OnDisk;
      PlusTimes(1, list[curList].length - curNum - 1, ss);
      OneTimes(ss);
    }
  }

  lemma OneTimes(ss: nat)
    ensures Times(1, ss) == ss
  {
  }

  lemma WholeSectors(p: nat, ss: nat)
    requires ss > 0
    ensures p / ss >= 0 && p == Times(p / ss, ss) + p % ss
  {
    DivNat(p, ss);
    assert p == ss * (p / ss) + p % ss;
  }

  lemma SectorSteps(a: nat, b: nat, ss: nat)
    requires ss > 0 && a <= b
    ensures a - a % ss >= 0 && a / ss + (b - (a - a % ss)) / ss == b / ss
  {
    hide Times;
    WholeSectors(a, ss);
    WholeSectors(b, ss);
    if b / ss < a / ss {
      PlusTimes(b / ss, a / ss - b / ss, ss);
      PlusTimes(1, a / ss - b / ss - 1, ss);
      OneTimes(ss);
    }
    PlusTimes(a / ss, b / ss - a / ss, ss);
    TimesQuotient(b - (a - a % ss), ss, b / ss - a / ss, b % ss);
  }

  lemma TimesQuotient(n: nat, ss: nat, q: nat, r: nat)
    requires ss > 0 && n == Times(q, ss) + r && r < ss
    ensures n / ss == q
  {
    assert n == ss * q + r;
    DivUnique(n, ss, q, r);
  }
}
