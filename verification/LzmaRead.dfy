/** Reading an LZMA file at any position, through the dictionary and an input buffer. */
module LzmaRead {
  import opened Words
  import opened LzmaGrammar
  import opened LzmaStream
  import opened LzmaDecoder
  import opened LzmaHeader
  import opened Slices

  const INP_SIZE: nat := 0x2_0000

  /** A step that is no data error and does not end with anything left in the range coder. */
  ghost predicate Clean(r: Progress) {
    !r.DataError? && (r.Finished? ==> r.s.rc.code == 0)
  }

  /** A stream in which the decoder finds no error, however far it gets. */
  ghost predicate Sound(p: Props, f: seq<Byte>)
    requires p.Valid()
  {
    |f| >= RC_INIT_SIZE ==> f[0] == 0 && forall n: nat :: Clean(Steps(p, Initial(p, f), n))
  }

  /** The bytes at position `at` of the output, none if it is not that long. */
  ghost predicate Found(out: seq<Byte>, at: nat, data: seq<Byte>) {
    data == [] || (at + |data| <= |out| && data == out[at..at + |data|])
  }

  lemma NothingFound(out: seq<Byte>, at: nat)
    ensures Found(out, at, [])
  {
  }

  lemma FoundInside(out: seq<Byte>, at: nat, data: seq<Byte>)
    requires Found(out, at, data)
    ensures data != [] ==> at + |data| <= |out| && data[0] == out[at]
  {
  }

  lemma FoundLater(out: seq<Byte>, grown: seq<Byte>, at: nat, data: seq<Byte>)
    requires Found(out, at, data) && out <= grown
    ensures Found(grown, at, data)
  {
  }

  lemma FoundMore(out: seq<Byte>, at: nat, data: seq<Byte>, more: seq<Byte>)
    requires Found(out, at, data) && at + |data| + |more| <= |out| && more == out[at + |data|..at + |data| + |more|]
    ensures Found(out, at, data + more)
  {
    Glue(out, at, at + |data|, |more|);
  }

  lemma SamePart(a: seq<Byte>, f: seq<Byte>, at: nat, n: nat)
    requires n <= |a| && at + n <= |f| && forall j :: 0 <= j < n ==> a[j] == f[at + j]
    ensures a[..n] == f[at..at + n]
  {
  }

  /** A sound stream gives the decoder nothing to report. */
  lemma NothingReported(d: LzmaDec, f: seq<Byte>, all: seq<Byte>, more: seq<Byte>, dicLimit: nat)
    requires d.p.Valid() && Sound(d.p, f) && f == all + more
    ensures !d.Reported(all, dicLimit, false)
  {
    hide Steps, Initial;
    if d.Reported(all, dicLimit, false) {
      if |all| >= RC_INIT_SIZE && d.CorruptAt(all, d.count) {
        CorruptWhole(d, all, d.count, more);
      } else {
        MarkedClean(d, f, all, more);
      }
    }
  }

  lemma CorruptWhole(d: LzmaDec, all: seq<Byte>, n: nat, more: seq<Byte>)
    requires d.p.Valid() && |all| >= RC_INIT_SIZE && d.CorruptAt(all, n)
    ensures Steps(d.p, Initial(d.p, all + more), n) == DataError
  {
    hide Steps, Initial;
    d.CorruptFed(all, n, more);
  }

  /** At the end marker of a sound stream the coder is empty. */
  lemma MarkedClean(d: LzmaDec, f: seq<Byte>, all: seq<Byte>, more: seq<Byte>)
    requires d.p.Valid() && Sound(d.p, f) && f == all + more
    requires d.Session() && d.fed <= all && d.remainLen == MATCH_SPEC_LEN_START
    ensures d.code == 0
  {
    hide Steps, Initial, LzmaDec.Valid, LzmaDec.Hungry, LzmaDec.OnStream;
    d.SessionSeen();
    d.RunningSeen();
    var rest := f[|d.fed|..];
    assert f == d.fed + rest by {
      assert d.fed == all[..|d.fed|] == f[..|d.fed|];
    }
    d.FeedStream(d.fed, d.count, d.AbsOn(d.tempBuf), true, rest);
    OnStreamSteps(d, f, d.count, FedLz(d.AbsOn(d.tempBuf), rest));
  }

  lemma OnStreamSteps(d: LzmaDec, f: seq<Byte>, n: nat, t: Lz)
    requires d.p.Valid() && |f| >= RC_INIT_SIZE && d.OnStream(f, n, t, true)
    ensures Steps(d.p, Initial(d.p, f), n) == Finished(t)
  {
    hide Steps, Initial;
  }

  class LzmaReader {
    const file: seq<Byte>
    const dec: LzmaDec
    const inp: array<Byte>
    var inpPos: nat
    var inpSize: nat
    var filepos: nat  // of the compressed file

    /** The compressed stream behind the header. */
    ghost function Stream(): seq<Byte>
      requires |file| >= HEADER_SIZE
    {
      file[HEADER_SIZE..]
    }

    ghost predicate Fixed() {
      && |file| >= HEADER_SIZE && inp.Length == INP_SIZE && inp != dec.dic && inp as object != dec.probs as object
      && dec.p.Valid() && Sound(dec.p, Stream())
    }

    /** The buffer holds the part of the file that was read last; the decoder has consumed all of the
        stream before the current place in the buffer. */
    ghost predicate Buffered()
      reads this, inp, dec`fed
      requires |file| >= HEADER_SIZE && inp.Length == INP_SIZE
    {
      && inpPos <= inpSize <= INP_SIZE && HEADER_SIZE + inpSize <= filepos <= |file|
      && inp[..inpSize] == file[filepos - inpSize..filepos]
      && dec.fed == Stream()[..filepos - inpSize + inpPos - HEADER_SIZE]
    }

    ghost predicate Valid()
      reads this, inp, dec, dec.probs, dec.dic
    {
      Fixed() && Buffered() && dec.Session() && dec.dicPos <= |dec.out|
    }

    /** How many bytes of the output lie before the start of the dictionary's current round. */
    ghost function Base(): nat
      reads dec
      requires dec.dicPos <= |dec.out|
    {
      |dec.out| - dec.dicPos
    }

    /** The stream holds no further symbol. */
    ghost predicate Exhausted()
      reads this, inp, dec, dec.probs, dec.dic
      requires Valid()
    {
      || dec.remainLen == MATCH_SPEC_LEN_START
      || (dec.fed == Stream() && dec.Stopped(NeedsMoreInput, dec.dicPos, false, true))
    }

    ghost predicate InFile()
      reads this
    {
      inpPos <= inpSize && filepos <= |file|
    }

    /** What has not been consumed yet. */
    ghost function Left(): nat
      reads this
      requires InFile()
    {
      |file| - filepos + (inpSize - inpPos)
    }

    constructor (f: seq<Byte>, p: Props)
      requires |f| >= HEADER_SIZE && p.Valid() && Sound(p, f[HEADER_SIZE..])
      ensures Valid() && file == f && dec.p == p && Base() == 0 && dec.out == [] && fresh(dec) && fresh(inp)
      ensures fresh(dec.probs) && fresh(dec.dic)
    {
      file := f;
      dec := new LzmaDec(p);
      inp := new Byte[INP_SIZE];
      inpPos, inpSize, filepos := 0, 0, HEADER_SIZE;
    }

    /** Reads the next part of the file into the buffer, if all of it is used up. */
    method Refill()
      requires Valid()
      modifies this`inpPos, this`inpSize, this`filepos, inp
      ensures Valid() && InFile() && Left() == old(Left())
      ensures inpPos == inpSize ==> filepos == |file| && dec.fed == Stream()
    {
      hide LzmaDec.Session, Sound;
      if inpPos == inpSize {
        var n: nat := Min(|file| - filepos, INP_SIZE);
        var at := filepos;
        forall j | 0 <= j < n {
          inp[j] := file[at + j];
        }
        inpPos, inpSize, filepos := 0, n, at + n;
        SamePart(inp[..], file, at, n);
      }
      assert Stream()[..|file| - HEADER_SIZE] == Stream();
    }

    /** Some more output, at most `want` bytes, from what the buffer holds. */
    method Decode(want: nat) returns (progress: bool)
      requires Valid() && want > 0 && dec.dicPos < dec.dic.Length && (inpPos == inpSize ==> dec.fed == Stream())
      modifies this`inpPos, dec, dec.probs, dec.dic
      ensures Valid() && old(dec.out) <= dec.out && Base() == old(Base()) && |dec.out| <= old(|dec.out|) + want
      ensures InFile() && Left() <= old(Left()) && (progress ==> Left() < old(Left()) || |dec.out| > old(|dec.out|))
      ensures !progress ==> Exhausted() && dec.out == old(dec.out)
    {
      hide LzmaDec.Session, LzmaDec.Stopped, LzmaDec.Reported, Sound, Stream, LzmaDec.Hungry, LzmaDec.Running;
      var dicPos := dec.dicPos;
      var dicLimit := if dec.dic.Length < dicPos + want then dec.dic.Length else dicPos + want;
      var src := inp[inpPos..inpSize];
      var start: nat := filepos - inpSize + inpPos - HEADER_SIZE;
      StreamPart(start, |src|);
      var res, n, status := dec.DecodeToDic(dicLimit, src, false);
      if res.ErrorData? {
        NothingReported(dec, Stream(), Stream()[..start + |src|], Stream()[start + |src|..], dicLimit);
      }
      StreamStep(start, |src|, n);
      inpPos := inpPos + n;
      progress := n > 0 || dec.dicPos != dicPos;
      if !progress {
        StoppedShort(dec, status, dicLimit, n == |src|);
        if status.NeedsMoreInput? {
          NeedsMore(dec, dicLimit, n == |src|, dec.dicPos);
        }
      }
    }

    /** The buffer's part of the stream. */
    lemma StreamPart(start: nat, n: nat)
      requires Fixed() && Buffered() && start == filepos - inpSize + inpPos - HEADER_SIZE && n == inpSize - inpPos
      ensures start + n <= |Stream()| && inp[inpPos..inpSize] == Stream()[start..start + n]
      ensures Stream()[..start] + inp[inpPos..inpSize] == Stream()[..start + n]
      ensures Stream()[..start + n] + Stream()[start + n..] == Stream()
    {
      hide Sound;
      SubSlice(file, filepos - inpSize, inpSize, inpPos, n);
      assert inp[inpPos..inpSize] == inp[..inpSize][inpPos..inpSize];
      assert Stream()[start..start + n] == file[HEADER_SIZE + start..HEADER_SIZE + start + n];
    }

    lemma StreamStep(start: nat, n: nat, k: nat)
      requires |file| >= HEADER_SIZE && start + n <= |Stream()| && k <= n
      ensures Stream()[..start] + Stream()[start..start + n][..k] == Stream()[..start + k]
    {
    }

    lemma PlaceInDic()
      requires Valid()
      ensures dec.dicPos <= dec.dic.Length && dec.dic.Length > 0
    {
      hide LzmaDec.Session, Sound;
      dec.LowerPart(0, 0);
    }

    /** What the dictionary has of the output from `outSkip` in this round on. */
    method CopyLower(outSkip: nat, want: nat, ghost at: nat, ghost data: seq<Byte>) returns (piece: seq<Byte>)
      requires Valid() && outSkip < dec.dicPos && Base() + outSkip == at + |data| && Found(dec.out, at, data)
      ensures |piece| == Min(dec.dicPos - outSkip, want) && Found(dec.out, at, data + piece)
    {
      hide LzmaDec.Session, Sound, Found, Buffered;
      var cur: nat := Max(Min(dec.dicPos - outSkip, want), 0);
      PlaceInDic();
      dec.LowerPart(outSkip, cur);
      piece := dec.dic[outSkip..outSkip + cur];
      FoundMore(dec.out, at, data, piece);
    }

    /** Refills the buffer, turns the dictionary round when it is full, and decodes some more. */
    method Advance(outSkip0: nat, want: nat, ghost at: nat, ghost data: seq<Byte>)
      returns (progress: bool, outSkip: nat)
      requires Valid() && InFile() && want > 0 && outSkip0 >= dec.dicPos && Found(dec.out, at, data)
      modifies this, inp, dec, dec.probs, dec.dic
      ensures Valid() && InFile() && old(dec.out) <= dec.out && Found(dec.out, at, data)
      ensures Base() + outSkip == old(Base()) + outSkip0 && |dec.out| <= old(|dec.out|) + want
      ensures Base() == old(Base()) || outSkip0 >= dec.dic.Length
      ensures Left() <= old(Left()) && (progress ==> Left() < old(Left()) || |dec.out| > old(|dec.out|))
      ensures !progress ==> Exhausted() && dec.out == old(dec.out)
    {
      hide LzmaDec.Session, Sound, Found, Buffered, Exhausted, Stream;
      outSkip := outSkip0;
      Refill();
      PlaceInDic();
      if dec.dicPos == dec.dic.Length {
        dec.WrapDic();
        outSkip := outSkip - dec.dic.Length;
      }
      progress := Decode(want);
      FoundLater(old(dec.out), dec.out, at, data);
    }

    /** Reads at position `ufp` of the output, as the program counts positions: from the start of the
        dictionary's current round. */
    method Read(ufp: nat, len: nat) returns (data: seq<Byte>)
      requires Valid()
      modifies this, inp, dec, dec.probs, dec.dic
      ensures Valid() && old(dec.out) <= dec.out && |data| <= len
      ensures Found(dec.out, old(Base()) + ufp, data)
      ensures |data| < len ==> Exhausted() && |dec.out| <= old(Base()) + ufp + |data|
      ensures ufp + len <= dec.dic.Length ==> Base() == old(Base())
      ensures |data| == len > 0 ==> (Base() == old(Base()) <==> ufp + len <= dec.dic.Length)
      ensures |dec.out| <= Max(|old(dec.out)|, old(Base()) + ufp + len)
    {
      hide LzmaDec.Session, Fixed, Found, Buffered, Exhausted;
      ghost var at := Base() + ufp;
      var outSkip: nat := ufp;
      data := [];
      NothingFound(dec.out, at);
      InFileNow();
      while |data| < len
        invariant Valid() && InFile() && old(dec.out) <= dec.out && |data| <= len
        invariant Found(dec.out, at, data) && Base() + outSkip == at + |data|
        invariant ufp + len <= dec.dic.Length ==> Base() == old(Base())
        invariant |dec.out| <= Max(|old(dec.out)|, at + len)
        decreases Left() + Max(0, at + len - |dec.out|)
      {
        if outSkip < dec.dicPos {
          var piece := CopyLower(outSkip, len - |data|, at, data);
          data := data + piece;
          outSkip := outSkip + |piece|;
          if |data| == len {
            break;
          }
        }
        var progress;
        progress, outSkip := Advance(outSkip, len - |data|, at, data);
        if !progress {
          break;
        }
      }
      PlaceInDic();
      FoundInside(dec.out, at, data);
    }

    lemma InFileNow()
      requires Valid()
      ensures InFile()
    {
      hide LzmaDec.Session, Sound;
    }
  }

  lemma StoppedShort(d: LzmaDec, status: Status, dicLimit: nat, allRead: bool)
    requires d.Session() && d.Stopped(status, dicLimit, false, allRead) && d.dicPos < dicLimit
    ensures status.NeedsMoreInput? || d.remainLen == MATCH_SPEC_LEN_START
    ensures status.NeedsMoreInput? ==> allRead
  {
    hide LzmaDec.Session, LzmaDec.Hungry;
  }

  lemma NeedsMore(d: LzmaDec, dicLimit: nat, allRead: bool, other: nat)
    requires d.Session() && d.Stopped(NeedsMoreInput, dicLimit, false, allRead)
    ensures d.Stopped(NeedsMoreInput, other, false, true)
  {
    hide LzmaDec.Session, LzmaDec.Hungry;
  }

  /** Whatever two readers of one file have been asked before, they deliver the same bytes for the same
      place of the output. */
  lemma SameBytes(a: LzmaReader, b: LzmaReader, at: nat, x: seq<Byte>, y: seq<Byte>)
    requires a.Valid() && b.Valid() && a.file == b.file && a.dec.p == b.dec.p
    requires Found(a.dec.out, at, x) && Found(b.dec.out, at, y) && |x| == |y|
    ensures x == y
  {
    hide LzmaDec.Session, Sound;
    if |a.dec.fed| <= |b.dec.fed| {
      FedOn(a, b);
    } else {
      FedOn(b, a);
    }
  }

  lemma FedOn(a: LzmaReader, b: LzmaReader)
    requires a.Valid() && b.Valid() && a.file == b.file && a.dec.p == b.dec.p && |a.dec.fed| <= |b.dec.fed|
    ensures a.dec.out <= b.dec.out || b.dec.out <= a.dec.out
  {
    hide LzmaDec.Session, Sound;
    var more := b.dec.fed[|a.dec.fed|..];
    assert b.dec.fed == a.dec.fed + more;
    ChunkingInvisible(a.dec, b.dec, more);
  }
}
