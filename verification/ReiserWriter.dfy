/** Journals written down word by word, and the proof that the reader reads every block as it was logged last. */
module ReiserWriter {
  import opened Words
  import opened Arith
  import opened ReiserJournal

  /** A block to be written, and what to. */
  datatype Write = Write(block: Word, data: Block)

  type Transaction = seq<Write>

  /** The blocks of a transaction as they lie in the journal from block `p` on, the last block being followed by
      the first: a descriptor with number, length, mount and the first 1018 places, the data, and a commit block
      with number, length and the other places. */
  ghost predicate LaidOut(disk: Disk, first: nat, count: nat, p: nat, id: Word, mount: Word, t: Transaction)
    requires count > 0
  {
    var desc, commit := disk(first + p), disk(first + (p + |t| + 1) % count);
    && desc[0] == id && desc[1] == |t| && desc[2] == mount
    && desc[1021] == 0x73496552 && desc[1022] == 0x424c7245
    && commit[0] == id && commit[1] == |t|
    && |t| <= 2036
    && (forall i :: 0 <= i < |t| ==> t[i].block == if i < 1018 then desc[3 + i] else commit[2 + (i - 1018)])
    && (forall i :: 0 <= i < |t| ==> disk(first + (p + 1 + i) % count) == t[i].data)
  }

  /** No block is logged twice. */
  ghost predicate Once(t: Transaction) {
    forall i, j :: 0 <= i < j < |t| ==> t[i].block != t[j].block
  }

  /** What stands at block `p` does not go on with transaction `id`. */
  ghost predicate Ends(disk: Disk, first: nat, count: nat, p: nat, id: Word, mount: Word)
    requires count > 0
  {
    var desc := disk(first + p);
    var commit := disk(first + (p + desc[1] + 1) % count);
    || desc[1021] != 0x73496552 || desc[1022] != 0x424c7245
    || desc[0] != id || desc[2] != mount
    || commit[0] != id || commit[1] != desc[1]
  }

  /** Transactions from block `p` on, numbered from `id` on modulo 2^32, one behind the other. */
  ghost predicate Follow(disk: Disk, first: nat, count: nat, p: nat, id: Word, mount: Word, ts: seq<Transaction>)
    requires count > 0
    decreases |ts|
  {
    if ts == [] then Ends(disk, first, count, p, id, mount)
    else
      && LaidOut(disk, first, count, p, id, mount, ts[0]) && Once(ts[0])
      && Follow(disk, first, count, (p + |ts[0]| + 2) % count, (id + 1) % WORD, mount, ts[1..])
  }

  /** A journal: behind its last block the header names the last transaction flushed, where the next one begins,
      and the mount. */
  ghost predicate Written(disk: Disk, first: nat, count: nat, ts: seq<Transaction>) {
    var header := disk(first + count);
    && 0 < count < WORD && header[1] < count
    && Follow(disk, first, count, header[1], (header[0] + 1) % WORD, header[2], ts)
  }

  /** All writes in order. */
  function Flat(ts: seq<Transaction>): seq<Write> {
    if ts == [] then [] else ts[0] + Flat(ts[1..])
  }

  /** What a block holds after the writes: the last of them decides. */
  function Overlaid(disk: Disk, writes: seq<Write>, b: nat): Block
    decreases |writes|
  {
    if writes == [] then disk(b)
    else if writes[|writes| - 1].block == b then writes[|writes| - 1].data
    else Overlaid(disk, writes[..|writes| - 1], b)
  }

  lemma {:induction false} OverlaidTwice(disk: Disk, a: seq<Write>, w: seq<Write>, b: nat)
    ensures Overlaid(disk, a + w, b) == Overlaid(x => Overlaid(disk, a, x), w, b)
    decreases |w|
  {
    if w == [] {
      assert a + w == a;
    } else {
      assert (a + w)[..|a + w| - 1] == a + w[..|w| - 1];
      OverlaidTwice(disk, a, w[..|w| - 1], b);
    }
  }

  lemma {:induction false} SameDisk(c: Disk, d: Disk, w: seq<Write>, b: nat)
    requires c(b) == d(b)
    ensures Overlaid(c, w, b) == Overlaid(d, w, b)
    decreases |w|
  {
    if w != [] {
      SameDisk(c, d, w[..|w| - 1], b);
    }
  }

  /** The transaction at `p` logs these blocks, and its log blocks hold this data. */
  ghost predicate Lies(J: Journal, p: nat, t: Transaction)
    requires J.count > 0
  {
    && |J.Logged(p)| == |t| && (forall i :: 0 <= i < |t| ==> J.Logged(p)[i] == t[i].block)
    && (forall i :: 0 <= i < |t| ==> J.At(J.Wrapped(p + 1 + i)) == t[i].data)
  }

  /** A transaction laid out is complete, logs these blocks and is sound. */
  lemma TransactionUndone(J: Journal, p: nat, id: Word, mount: Word, t: Transaction)
    requires J.count > 0 && LaidOut(J.disk, J.first, J.count, p, id, mount, t)
    ensures J.Complete(p, id, mount) && J.After(p) == (p + |t| + 2) % J.count && Lies(J, p, t)
    ensures Once(t) ==> J.Sound(p)
  {
    hide J.Complete, J.Sound, J.After, J.Logged, J.Wrapped, Once, Lies, LaidOut;
    FramedRight(J, p, id, mount, t);
    LoggedRight(J, p, id, mount, t);
    DataRight(J, p, id, mount, t);
    LiesIf(J, p, t);
    if Once(t) {
      OnceIsSound(J, p, t);
    }
  }

  lemma LiesIf(J: Journal, p: nat, t: Transaction)
    requires J.count > 0 && |J.Logged(p)| == |t| && forall i :: 0 <= i < |t| ==> J.Logged(p)[i] == t[i].block
    requires forall i :: 0 <= i < |t| ==> J.At(J.Wrapped(p + 1 + i)) == t[i].data
    ensures Lies(J, p, t)
  {
    hide J.Logged, J.Wrapped, J.At;
  }

  lemma FramedRight(J: Journal, p: nat, id: Word, mount: Word, t: Transaction)
    requires J.count > 0 && LaidOut(J.disk, J.first, J.count, p, id, mount, t)
    ensures J.Complete(p, id, mount) && J.After(p) == (p + |t| + 2) % J.count
  {
    AddModulo(p + |t| + 1, 1, J.count);
  }

  lemma LoggedRight(J: Journal, p: nat, id: Word, mount: Word, t: Transaction)
    requires J.count > 0 && LaidOut(J.disk, J.first, J.count, p, id, mount, t)
    ensures |J.Logged(p)| == |t| == Length(J.At(p)) && forall i :: 0 <= i < |t| ==> J.Logged(p)[i] == t[i].block
    ensures |t| <= 2036
  {
    hide J.Wrapped;
    CommitPlace(J, p, |t|);
    forall i | 0 <= i < |t|
      ensures |J.Logged(p)| == |t| && J.Logged(p)[i] == t[i].block
    {
    }
  }

  lemma CommitPlace(J: Journal, p: nat, n: nat)
    requires J.count > 0
    ensures J.Wrapped(p + n + 1) == (p + n + 1) % J.count
  {
  }

  lemma DataRight(J: Journal, p: nat, id: Word, mount: Word, t: Transaction)
    requires J.count > 0 && LaidOut(J.disk, J.first, J.count, p, id, mount, t)
    ensures forall i :: 0 <= i < |t| ==> J.At(J.Wrapped(p + 1 + i)) == t[i].data
  {
  }

  lemma OnceIsSound(J: Journal, p: nat, t: Transaction)
    requires J.count > 0 && Once(t) && |J.Logged(p)| == |t| == Length(J.At(p)) && |t| <= 2036
    requires forall i :: 0 <= i < |t| ==> J.Logged(p)[i] == t[i].block
    ensures J.Sound(p)
  {
    hide J.Logged, J.At;
  }

  /** Replaying it is writing its blocks. */
  lemma {:induction false} ReplayUndone(J: Journal, onto: Disk, p: nat, t: Transaction, n: nat, b: nat)
    requires J.count > 0 && Lies(J, p, t) && n <= |t|
    ensures n <= |J.Logged(p)| && J.Replayed(onto, p, n)(b) == Overlaid(onto, t[..n], b)
    decreases n
  {
    hide J.Logged, J.Wrapped, J.At, J.Replayed;
    if n == 0 {
      J.ReplayedNone(onto, p, b);
    } else {
      assert t[..n][..n - 1] == t[..n - 1];
      J.ReplayedOne(onto, p, n, b);
      ReplayUndone(J, onto, p, t, n - 1, b);
      assert J.At(J.Wrapped(p + 1 + (n - 1))) == t[n - 1].data;
    }
  }

  /** The same number of transactions from the second one on. */
  lemma {:induction false} DescAfter(J: Journal, p: nat, k: nat)
    requires J.count > 0
    ensures J.Desc(p, k + 1) == J.Desc(J.After(p), k)
    decreases k
  {
    hide J.After;
    if k > 0 {
      DescAfter(J, p, k - 1);
    }
  }

  /** The written transactions are the ones found, and no more are. */
  lemma {:induction false} ChainUndone(J: Journal, p: nat, id: Word, mount: Word, ts: seq<Transaction>)
    requires J.count > 0 && Follow(J.disk, J.first, J.count, p, id, mount, ts)
    ensures J.Chain(p, id, mount, |ts|)
    ensures !J.Complete(J.Desc(p, |ts|), (id + |ts|) % WORD, mount)
    ensures forall k: nat :: k < |ts| ==> J.Sound(J.Desc(p, k))
    decreases |ts|
  {
    hide LaidOut, Once, Ends, J.Complete, J.Sound, J.Desc, J.After, J.Chain, J.Logged, J.At, J.Wrapped, J.CommitAt;
    if ts == [] {
      NothingFollows(J, p, id, mount);
    } else {
      WordZero(id);
      TransactionUndone(J, p, id, mount, ts[0]);
      ChainUndone(J, J.After(p), (id + 1) % WORD, mount, ts[1..]);
      Prepended(J, p, id, mount, |ts| - 1);
    }
  }

  /** A chain is longer by the transaction in front of it. */
  lemma Prepended(J: Journal, p: nat, id: Word, mount: Word, n: nat)
    requires J.count > 0 && J.Complete(p, id, mount) && J.Sound(p)
    requires J.Chain(J.After(p), (id + 1) % WORD, mount, n)
    requires !J.Complete(J.Desc(J.After(p), n), ((id + 1) % WORD + n) % WORD, mount)
    requires forall k: nat :: k < n ==> J.Sound(J.Desc(J.After(p), k))
    ensures J.Chain(p, id, mount, n + 1)
    ensures !J.Complete(J.Desc(p, n + 1), (id + n + 1) % WORD, mount)
    ensures forall k: nat :: k < n + 1 ==> J.Sound(J.Desc(p, k))
  {
    hide J.Complete, J.Sound, J.Desc, J.After, J.Chain;
    DescAfter(J, p, n);
    NextId(id, n);
    WordZero(id);
    forall k: nat | k < n + 1
      ensures J.Sound(J.Desc(p, k)) && J.Complete(J.Desc(p, k), (id + k) % WORD, mount)
    {
      if k == 0 {
        DescNone(J, p);
      } else {
        DescAfter(J, p, k - 1);
        NextId(id, k - 1);
        ChainAt(J, J.After(p), (id + 1) % WORD, mount, n, k - 1);
      }
    }
    ChainIs(J, p, id, mount, n + 1);
  }

  lemma WordZero(id: Word)
    ensures (id + 0) % WORD == id
  {
  }

  lemma NextId(id: Word, k: nat)
    ensures ((id + 1) % WORD + k) % WORD == (id + (k + 1)) % WORD
    ensures id + (k + 1) == id + k + 1
  {
    AddModulo(id + 1, k, WORD);
  }

  lemma ChainAt(J: Journal, p: nat, id: Word, mount: Word, n: nat, k: nat)
    requires J.count > 0 && J.Chain(p, id, mount, n) && k < n
    ensures J.Complete(J.Desc(p, k), (id + k) % WORD, mount)
  {
    hide J.Complete, J.Desc;
  }

  lemma ChainIs(J: Journal, p: nat, id: Word, mount: Word, n: nat)
    requires J.count > 0 && forall k: nat :: k < n ==> J.Complete(J.Desc(p, k), (id + k) % WORD, mount)
    ensures J.Chain(p, id, mount, n)
  {
    hide J.Complete, J.Desc;
  }

  lemma DescNone(J: Journal, p: nat)
    requires J.count > 0
    ensures J.Desc(p, 0) == p
  {
  }

  lemma NothingFollows(J: Journal, p: nat, id: Word, mount: Word)
    requires J.count > 0 && Ends(J.disk, J.first, J.count, p, id, mount)
    ensures !J.Complete(J.Desc(p, 0), id, mount) && J.Chain(p, id, mount, 0)
  {
  }

  /** Replaying what was written is writing all of it, in order. */
  lemma {:induction false} AllUndone(J: Journal, p: nat, id: Word, mount: Word, ts: seq<Transaction>, k: nat, b: nat)
    requires J.count > 0 && Follow(J.disk, J.first, J.count, p, id, mount, ts) && k <= |ts|
    ensures J.ReplayAll(p, k)(b) == Overlaid(J.disk, Flat(ts[..k]), b)
    decreases k
  {
    hide Follow, Overlaid, J.Replayed, J.Desc, J.Logged, J.At, J.Wrapped;
    if k == 0 {
      NoWrites(J, p, ts, b);
    } else {
      var d, t := J.Desc(p, k - 1), ts[k - 1];
      var before := J.ReplayAll(p, k - 1);
      AllUndone(J, p, id, mount, ts, k - 1, b);
      PlaceOf(J, p, id, mount, ts, k - 1);
      ReplayUndone(J, before, d, t, |t|, b);
      assert t[..|t|] == t && |J.Logged(d)| == |t|;
      FlatSnoc(ts[..k - 1], t);
      assert ts[..k] == ts[..k - 1] + [t];
      OverlaidTwice(J.disk, Flat(ts[..k - 1]), t, b);
      SameDisk(before, x => Overlaid(J.disk, Flat(ts[..k - 1]), x), t, b);
    }
  }

  lemma NoWrites(J: Journal, p: nat, ts: seq<Transaction>, b: nat)
    requires J.count > 0
    ensures J.ReplayAll(p, 0)(b) == Overlaid(J.disk, Flat(ts[..0]), b)
  {
  }

  lemma {:induction false} FlatSnoc(ts: seq<Transaction>, t: Transaction)
    ensures Flat(ts + [t]) == Flat(ts) + t
    decreases |ts|
  {
    if ts == [] {
      assert ts + [t] == [t] && [t][1..] == [];
    } else {
      assert (ts + [t])[1..] == ts[1..] + [t];
      FlatSnoc(ts[1..], t);
    }
  }

  /** The `k`-th transaction lies where the reader looks for it. */
  lemma {:induction false} PlaceOf(J: Journal, p: nat, id: Word, mount: Word, ts: seq<Transaction>, k: nat)
    requires J.count > 0 && Follow(J.disk, J.first, J.count, p, id, mount, ts) && k < |ts|
    ensures Lies(J, J.Desc(p, k), ts[k])
    decreases k
  {
    hide LaidOut, Once, Lies, J.At, J.Wrapped, J.After, J.Complete, J.Sound;
    TransactionUndone(J, p, id, mount, ts[0]);
    if k > 0 {
      PlaceOf(J, J.After(p), (id + 1) % WORD, mount, ts[1..], k - 1);
      DescAfter(J, p, k - 1);
    }
  }

  /** A reader of a written journal reads every block as it was written last. */
  method ReadWritten(disk: Disk, first: nat, count: nat, ghost ts: seq<Transaction>, tableWords: nat, b: nat)
    returns (data: Block)
    requires Written(disk, first, count, ts) && (exists e: nat :: Pow2(e) == count) && tableWords > 0
    requires |ts| < 0x1_0000
    ensures data == Overlaid(disk, Flat(ts), b)
  {
    hide Follow, Flat, Overlaid, Journal.ReplayAll, Journal.Chain, Journal.Complete, Journal.Sound, Journal.Desc, Pow2,
         JournalReader.Found, JournalReader.Short;
    var r := new JournalReader(disk, first, count, tableWords);
    var header := disk(first + count);
    ghost var p, id, mount := header[1], (header[0] + 1) % WORD, header[2];
    ChainUndone(r.J, p, id, mount, ts);
    FoundWritten(r, ts);
    var ok := r.JournalInit();
    CountWritten(r, ts);
    AllUndone(r.J, p, id, mount, ts, |ts|, b);
    assert ts[..|ts|] == ts;
    data := r.BlockRead(b);
  }

  lemma FoundWritten(r: JournalReader, ts: seq<Transaction>)
    requires r.J.Valid() && Written(r.J.disk, r.J.first, r.J.count, ts)
    ensures r.Header() && r.Found(|ts|) && r.SoundJournal()
  {
    hide Follow, Journal.Chain, Journal.Complete, Journal.Sound, Journal.Desc, Pow2;
    var J := r.J;
    var header := J.disk(J.first + J.count);
    ChainUndone(J, header[1], (header[0] + 1) % WORD, header[2], ts);
    forall k: nat | J.Chain(header[1], r.FirstId(), r.Mount(), k + 1)
      ensures J.Sound(J.Desc(header[1], k))
    {
      if k >= |ts| {
        Broken(J, header[1], r.FirstId(), r.Mount(), |ts|, k);
      }
    }
  }

  lemma Broken(J: Journal, p: nat, id: Word, mount: Word, n: nat, k: nat)
    requires J.count > 0 && n <= k && J.Chain(p, id, mount, k + 1)
    ensures J.Complete(J.Desc(p, n), (id + n) % WORD, mount)
  {
  }

  lemma CountWritten(r: JournalReader, ts: seq<Transaction>)
    requires r.J.Valid() && r.Found(|ts|)
    ensures forall k: nat :: r.Found(k) ==> k == |ts|
    ensures |ts| < 0x1_0000 ==> r.Short(|ts|) == |ts|
  {
    hide JournalReader.Found;
    forall k: nat | r.Found(k)
      ensures k == |ts|
    {
      r.FoundOnce(k, |ts|);
    }
  }
}
