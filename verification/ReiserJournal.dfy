/** The ReiserFS journal overlay: blocks are read as if every valid transaction had been replayed. */
module ReiserJournal {
  import opened Words
  import opened Arith

  const JOURNAL_TRANS_HALF: nat := 1018
  const DESC_WORDS: nat := 1024
  const END_MARK: nat := 0xffff_ffff

  type Word = x: nat | x < WORD

  /** The words of a disk block that the journal code looks at. */
  type Block = b: seq<Word> | |b| == DESC_WORDS witness seq(DESC_WORDS, i => 0)

  /** A device: what each block number holds. */
  type Disk = nat -> Block

  // ---- the three kinds of journal blocks

  function TransId(b: Block): Word { b[0] }

  function Length(b: Block): Word { b[1] }

  /** "ReIsErLB" */
  predicate HasDescMagic(b: Block) {
    b[1021] == 0x73496552 && b[1022] == 0x424c7245
  }

  function DescMount(b: Block): Word { b[2] }

  /** The block number that the `i`-th log block of a transaction belongs to. */
  function RealBlock(desc: Block, commit: Block, i: nat): Word
    requires i < 2 * JOURNAL_TRANS_HALF
  {
    if i < JOURNAL_TRANS_HALF then desc[3 + i] else commit[2 + (i - JOURNAL_TRANS_HALF)]
  }

  /** A journal of `count` blocks that begins at block `first` of the device. */
  datatype Journal = Journal(disk: Disk, first: nat, count: nat) {
    ghost predicate Valid() {
      0 < count < WORD && exists e: nat :: Pow2(e) == count
    }

    /** n & (count - 1), `count` being a power of two. */
    function Wrapped(n: nat): (p: nat)
      requires count > 0
      ensures p < count
    {
      n % count
    }

    function At(n: nat): Block {
      disk(first + n)
    }

    function CommitAt(desc: nat): nat
      requires count > 0
    {
      Wrapped(desc + Length(At(desc)) + 1)
    }

    /** A complete transaction with the given number starts at `desc`. */
    predicate Complete(desc: nat, id: nat, mount: nat)
      requires count > 0
    {
      && HasDescMagic(At(desc)) && TransId(At(desc)) == id && DescMount(At(desc)) == mount
      && TransId(At(CommitAt(desc))) == id && Length(At(CommitAt(desc))) == Length(At(desc))
    }

    /** The descriptor block of the next transaction. */
    function After(desc: nat): (d: nat)
      requires count > 0
      ensures d < count
    {
      Wrapped(CommitAt(desc) + 1)
    }

    /** The `k`-th descriptor block from `desc` on, if each transaction follows the one before. */
    function Desc(desc: nat, k: nat): (d: nat)
      requires count > 0
      ensures desc < count ==> d < count
    {
      if k == 0 then desc else After(Desc(desc, k - 1))
    }

    /** Transactions number `id` and following, `k` of them, are all complete. */
    predicate Chain(desc: nat, id: nat, mount: nat, k: nat)
      requires count > 0
    {
      forall j: nat :: j < k ==> Complete(Desc(desc, j), (id + j) % WORD, mount)
    }

    lemma ChainBegins(desc: nat, id: nat, mount: nat, m: nat, k: nat)
      requires count > 0 && Chain(desc, id, mount, k) && m <= k
      ensures Chain(desc, id, mount, m)
    {
      hide Complete, Desc;
    }

    lemma ChainAdds(desc: nat, id: nat, mount: nat, k: nat)
      requires count > 0 && Chain(desc, id, mount, k) && Complete(Desc(desc, k), (id + k) % WORD, mount)
      ensures Chain(desc, id, mount, k + 1)
    {
      hide Complete, Desc;
    }

    /** The real block numbers of the transaction that starts at `desc`. */
    function Logged(desc: nat): (r: seq<Word>)
      requires count > 0
      ensures |r| == Length(At(desc))
    {
      seq(Length(At(desc)), i requires 0 <= i < Length(At(desc)) =>
        if i < 2 * JOURNAL_TRANS_HALF then RealBlock(At(desc), At(CommitAt(desc)), i) else 0)
    }

    /** What a well-formed transaction is: it fits its two list blocks and logs no block twice. */
    predicate Sound(desc: nat)
      requires count > 0
    {
      && Length(At(desc)) <= 2 * JOURNAL_TRANS_HALF
      && forall i, j :: 0 <= i < j < |Logged(desc)| ==> Logged(desc)[i] != Logged(desc)[j]
    }

    /** The device after the log blocks of one transaction have been copied to their places. */
    function Replayed(onto: Disk, desc: nat, n: nat): Disk
      requires count > 0 && n <= |Logged(desc)|
    {
      if n == 0 then onto
      else
        var before := Replayed(onto, desc, n - 1);
        b => if b == Logged(desc)[n - 1] then At(Wrapped(desc + n)) else before(b)
    }

    /** The device after the first `k` transactions from `desc` on have been replayed, in order. */
    function ReplayAll(desc: nat, k: nat): Disk
      requires count > 0
    {
      if k == 0 then disk
      else Replayed(ReplayAll(desc, k - 1), Desc(desc, k - 1), |Logged(Desc(desc, k - 1))|)
    }

    // ---- the chain of valid transactions is finite

    lemma ChainDistinct(desc: nat, id: nat, mount: nat, k: nat, i: nat, j: nat)
      requires count > 0 && Chain(desc, id, mount, k) && i < j < k <= WORD
      ensures Desc(desc, i) != Desc(desc, j)
    {
      if Desc(desc, i) == Desc(desc, j) {
        assert (id + i) % WORD == TransId(At(Desc(desc, i))) == (id + j) % WORD;
        SameResidue(id + i, id + j);
      }
    }

    /** No more transactions can follow each other than the journal has blocks. */
    lemma ChainBounded(desc: nat, id: nat, mount: nat, k: nat)
      requires Valid() && desc < count && Chain(desc, id, mount, k)
      ensures k <= count
    {
      if k > count {
        var ds := seq(count + 1, i requires 0 <= i => Desc(desc, i));
        forall i, j | 0 <= i < j < |ds|
          ensures ds[i] != ds[j]
        {
          ChainDistinct(desc, id, mount, count + 1, i, j);
        }
        Pigeonhole(ds, count);
      }
    }

    lemma ReplayedNone(onto: Disk, desc: nat, b: nat)
      requires count > 0
      ensures Replayed(onto, desc, 0)(b) == onto(b)
    {
    }

    lemma ReplayedOne(onto: Disk, desc: nat, n: nat, b: nat)
      requires count > 0 && 0 < n <= |Logged(desc)|
      ensures Replayed(onto, desc, n)(b)
           == if b == Logged(desc)[n - 1] then At(Wrapped(desc + n)) else Replayed(onto, desc, n - 1)(b)
    {
      hide Logged, Wrapped, At;
    }

    /** Replaying a transaction changes exactly the blocks it logs. */
    lemma {:induction false} ReplayedAt(onto: Disk, desc: nat, n: nat, b: nat)
      requires count > 0 && n <= |Logged(desc)| && Sound(desc)
      ensures forall i :: 0 <= i < n && Logged(desc)[i] == b ==> Replayed(onto, desc, n)(b) == At(Wrapped(desc + 1 + i))
      ensures (forall i :: 0 <= i < n ==> Logged(desc)[i] != b) ==> Replayed(onto, desc, n)(b) == onto(b)
      decreases n
    {
      hide Replayed, Logged, Wrapped, At;
      if n == 0 {
        ReplayedNone(onto, desc, b);
      } else {
        ReplayedAt(onto, desc, n - 1, b);
        ReplayedOne(onto, desc, n, b);
      }
    }

    /** The last transaction decides about the blocks it logs. */
    lemma LastDecides(desc: nat, k: nat, d: nat, i: nat)
      requires count > 0 && d == Desc(desc, k) && Sound(d) && i < |Logged(d)|
      ensures ReplayAll(desc, k + 1)(Logged(d)[i]) == At(Wrapped(d + 1 + i))
    {
      hide Replayed, Logged, Sound, Desc, Wrapped, At;
      ReplayedAt(ReplayAll(desc, k), d, |Logged(d)|, Logged(d)[i]);
    }

    /** Transactions that do not log a block have no part in what is read there: a reader that has counted
        only the first `m` of them reads that block right. */
    lemma {:induction false} UnloggedLater(desc: nat, m: nat, k: nat, b: nat)
      requires count > 0 && m <= k
      requires forall j: nat :: m <= j < k ==> Sound(Desc(desc, j)) && b !in Logged(Desc(desc, j))
      ensures ReplayAll(desc, k)(b) == ReplayAll(desc, m)(b)
      decreases k
    {
      hide Replayed, Logged, Sound, Desc;
      if m < k {
        var d := Desc(desc, k - 1);
        UnloggedLater(desc, m, k - 1, b);
        ReplayedAt(ReplayAll(desc, k - 1), d, |Logged(d)|, b);
        assert ReplayAll(desc, k) == Replayed(ReplayAll(desc, k - 1), d, |Logged(d)|);
      }
    }
  }

  lemma SameResidue(a: nat, b: nat)
    requires a % WORD == b % WORD && a < b
    ensures b - a >= WORD
  {
  }

  /** Distinct numbers below `n` are at most `n`. */
  lemma {:induction false} Pigeonhole(s: seq<nat>, n: nat)
    requires forall i :: 0 <= i < |s| ==> s[i] < n
    requires forall i, j :: 0 <= i < j < |s| ==> s[i] != s[j]
    ensures |s| <= n
    decreases n
  {
    if s != [] {
      assert s[0] < n;
      if n - 1 in s {
        var k :| 0 <= k < |s| && s[k] == n - 1;
        Pigeonhole(s[..k] + s[k + 1..], n - 1);
      } else {
        Pigeonhole(s, n - 1);
      }
    }
  }

  /** Words of the table taken by the first `k` transactions: a length and that many block numbers each. */
  function Used(J: Journal, desc: nat, k: nat): nat
    requires J.count > 0
  {
    if k == 0 then 0 else Used(J, desc, k - 1) + 1 + Length(J.At(J.Desc(desc, k - 1)))
  }

  lemma {:induction false} UsedMono(J: Journal, desc: nat, j: nat, k: nat)
    requires J.count > 0 && j <= k
    ensures Used(J, desc, j) <= Used(J, desc, k)
    decreases k
  {
    if j < k {
      UsedMono(J, desc, j, k - 1);
    }
  }

  /** The table lists the transaction that starts at `d` from word `at` on. */
  ghost predicate Lists(J: Journal, t: seq<Word>, d: nat, at: nat)
    requires J.count > 0
  {
    && at + 1 + |J.Logged(d)| <= |t|
    && t[at] == |J.Logged(d)|
    && forall i :: 0 <= i < |J.Logged(d)| ==> t[at + 1 + i] == J.Logged(d)[i]
  }

  /** The table lists the first `c` transactions, and a mark if there are more. */
  ghost predicate Table(J: Journal, t: seq<Word>, desc: nat, c: nat, k: nat)
    requires J.count > 0
  {
    && c <= k
    && (forall j: nat :: j < c ==> Lists(J, t, J.Desc(desc, j), Used(J, desc, j)))
    && (c < k ==> Used(J, desc, c) < |t| && t[Used(J, desc, c)] == END_MARK)
  }

  lemma ListKept(J: Journal, t: seq<Word>, t': seq<Word>, d: nat, at: nat, n: nat)
    requires J.count > 0 && n <= |t| == |t'| && t'[..n] == t[..n]
    requires Lists(J, t, d, at) && at + 1 + |J.Logged(d)| <= n
    ensures Lists(J, t', d, at)
  {
    hide J.Logged;
    var r := J.Logged(d);
    assert t'[at] == t'[..n][at] == t[..n][at];
    forall i | 0 <= i < |r|
      ensures t'[at + 1 + i] == r[i]
    {
      assert t'[at + 1 + i] == t'[..n][at + 1 + i] == t[..n][at + 1 + i];
    }
  }

  /** Writing behind the lists leaves them as they are. */
  lemma TableKept(J: Journal, t: seq<Word>, t': seq<Word>, desc: nat, c: nat)
    requires J.count > 0 && |t'| == |t| && Used(J, desc, c) <= |t|
    requires t'[..Used(J, desc, c)] == t[..Used(J, desc, c)]
    requires forall j: nat :: j < c ==> Lists(J, t, J.Desc(desc, j), Used(J, desc, j))
    ensures forall j: nat :: j < c ==> Lists(J, t', J.Desc(desc, j), Used(J, desc, j))
  {
    hide Lists, J.Logged, J.Desc, Used;
    forall j: nat | j < c
      ensures Lists(J, t', J.Desc(desc, j), Used(J, desc, j))
    {
      UsedNext(J, desc, j);
      UsedMono(J, desc, j + 1, c);
      ListKept(J, t, t', J.Desc(desc, j), Used(J, desc, j), Used(J, desc, c));
    }
  }

  lemma UsedNext(J: Journal, desc: nat, k: nat)
    requires J.count > 0
    ensures Used(J, desc, k + 1) == Used(J, desc, k) + 1 + Length(J.At(J.Desc(desc, k)))
    ensures |J.Logged(J.Desc(desc, k))| == Length(J.At(J.Desc(desc, k)))
    ensures Used(J, desc, 0) == 0
  {
  }

  class JournalReader {
    const J: Journal
    const table: array<Word>
    var transactions: nat
    var firstDesc: nat
    ghost var cached: nat

    ghost predicate Header()
    {
      J.Valid() && J.At(J.count)[1] < J.count
    }

    ghost function FirstId(): nat {
      (J.At(J.count)[0] + 1) % WORD
    }

    /** The number of the `k`-th transaction to look for. */
    ghost function Id(k: nat): nat {
      (FirstId() + k) % WORD
    }

    ghost function Mount(): Word {
      J.At(J.count)[2]
    }

    /** Every transaction that is found complete is also well formed. */
    ghost predicate SoundJournal()
      requires J.count > 0
    {
      forall k: nat :: J.Chain(J.At(J.count)[1], FirstId(), Mount(), k + 1) ==> J.Sound(J.Desc(J.At(J.count)[1], k))
    }

    ghost predicate Valid()
      reads this, table
    {
      && J.Valid() && table.Length > 0
      && (transactions > 0 ==>
            && firstDesc < J.count && Table(J, table[..], firstDesc, cached, transactions)
            && forall k: nat :: k < transactions ==> J.Sound(J.Desc(firstDesc, k)))
    }

    constructor (disk: Disk, first: nat, count: nat, tableWords: nat)
      requires Journal(disk, first, count).Valid() && tableWords > 0
      ensures Valid() && transactions == 0 && J == Journal(disk, first, count) && fresh(table)
              && table.Length == tableWords
    {
      J := Journal(disk, first, count);
      table := new Word[tableWords];
      transactions, firstDesc, cached := 0, 0, 0;
    }

    /** Puts one transaction's list into the table at word `at`. */
    method CacheList(at: nat, desc: Block, commit: Block, ghost d: nat)
      requires J.Valid() && d < J.count && desc == J.At(d) && commit == J.At(J.CommitAt(d)) && J.Sound(d)
      requires at + 1 + Length(desc) < table.Length
      modifies table
      ensures Lists(J, table[..], d, at) && table[..at] == old(table[..at])
    {
      var len := Length(desc);
      table[at] := len;
      var i := 0;
      while i < len && i < JOURNAL_TRANS_HALF
        invariant 0 <= i <= len && i <= JOURNAL_TRANS_HALF && table[at] == len && table[..at] == old(table[..at])
        invariant forall j :: 0 <= j < i ==> table[at + 1 + j] == J.Logged(d)[j]
      {
        table[at + 1 + i] := desc[3 + i];
        i := i + 1;
      }
      while i < len
        invariant 0 <= i <= len && table[at] == len && table[..at] == old(table[..at])
        invariant i < len ==> i >= JOURNAL_TRANS_HALF
        invariant forall j :: 0 <= j < i ==> table[at + 1 + j] == J.Logged(d)[j]
      {
        table[at + 1 + i] := commit[2 + (i - JOURNAL_TRANS_HALF)];
        i := i + 1;
      }
    }

    /** How far the table is filled after `k` transactions: `c` of them listed, then possibly the mark. */
    ghost predicate Filling(d0: nat, k: nat, c: nat, at: nat)
      requires J.count > 0
      reads table
    {
      && Table(J, table[..], d0, c, k) && at <= table.Length
      && (if at < table.Length then c == k && at == Used(J, d0, k) else c < k)
    }

    /** Adds one transaction to the table, or closes the table. */
    method CacheTransaction(ghost d0: nat, ghost k: nat, ghost c0: nat, at0: nat, ghost d: nat, desc: Block,
                            commit: Block)
      returns (at: nat, ghost c: nat)
      requires J.Valid() && d0 < J.count && d == J.Desc(d0, k) && d < J.count
      requires desc == J.At(d) && commit == J.At(J.CommitAt(d)) && J.Sound(d)
      requires Filling(d0, k, c0, at0)
      modifies table
      ensures Filling(d0, k + 1, c, at)
    {
      hide Lists, J.Logged, J.Desc, J.Sound, Used;
      at, c := at0, c0;
      ghost var before := table[..];
      if at < table.Length {
        UsedNext(J, d0, k);
        if at + 1 + Length(desc) >= table.Length {
          table[at] := END_MARK;
          assert table[..][..at] == before[..at] && table[..][at] == END_MARK;
          TableKept(J, before, table[..], d0, c0);
          at := table.Length;
        } else {
          CacheList(at, desc, commit, d);
          assert table[..][..at]
                 == before[..at] by { assert table[..][..at] == table[..at] && before[..at] == old(table[..at]); }
          TableKept(J, before, table[..], d0, c0);
          at := at + 1 + Length(desc);
          c := c + 1;
        }
      }
    }

    lemma NextOne(d0: nat, k: nat)
      requires J.Valid() && d0 < J.count
      ensures Id(0) == FirstId() && Id(k + 1) == (Id(k) + 1) % WORD
      ensures J.Desc(d0, 0) == d0 && J.Desc(d0, k + 1) == J.Wrapped(J.CommitAt(J.Desc(d0, k)) + 1)
    {
    }

    lemma StartFilling(d0: nat)
      requires J.Valid() && table.Length > 0
      ensures Filling(d0, 0, 0, 0)
    {
    }

    lemma NoChain()
      requires J.Valid()
      ensures J.Chain(J.At(J.count)[1], FirstId(), Mount(), 0)
    {
    }

    lemma ChainMore(k: nat)
      requires Header() && J.Chain(J.At(J.count)[1], FirstId(), Mount(), k)
      requires J.Complete(J.Desc(J.At(J.count)[1], k), Id(k), Mount()) && SoundJournal()
      ensures J.Chain(J.At(J.count)[1], FirstId(), Mount(), k + 1) && k + 1 <= J.count
      ensures J.Sound(J.Desc(J.At(J.count)[1], k))
    {
      hide J.Complete, J.Desc, J.Sound, J.Chain;
      IdIs(k);
      J.ChainAdds(J.At(J.count)[1], FirstId(), Mount(), k);
      J.ChainBounded(J.At(J.count)[1], FirstId(), Mount(), k + 1);
      SoundAt(k);
    }

    /** next_trans_id - j_last_flush_trans_id - 1 in 32 bits */
    function Difference(next: nat, last: nat): nat
      requires last < WORD
    {
      (next + 2 * WORD - last - 1) % WORD
    }

    /** A 16-bit field. */
    function Short(n: nat): (m: nat)
      ensures m <= n && m < 0x1_0000 && (n < 0x1_0000 ==> m == n)
    {
      n % 0x1_0000
    }

    lemma TableShorter(t: seq<Word>, d0: nat, c: nat, k: nat, m: nat)
      requires J.Valid() && Table(J, t, d0, c, k) && m <= k
      ensures Table(J, t, d0, if c <= m then c else m, m)
    {
      hide Lists, Used, J.Desc;
    }

    /** next_trans_id - j_last_flush_trans_id - 1, in 32 bits, counts the transactions. */
    lemma Counted(last: nat, next: nat, k: nat)
      requires last < WORD && k < WORD && next == ((last + 1) % WORD + k) % WORD
      ensures Difference(next, last) == k
    {
    }

    lemma AllSound(k: nat)
      requires Header() && SoundJournal() && J.Chain(J.At(J.count)[1], FirstId(), Mount(), k)
      ensures forall j: nat :: j < k ==> J.Sound(J.Desc(J.At(J.count)[1], j))
    {
      hide J.Complete, J.Desc, J.Sound, J.Chain;
      forall j: nat | j < k
        ensures J.Sound(J.Desc(J.At(J.count)[1], j))
      {
        J.ChainBegins(J.At(J.count)[1], FirstId(), Mount(), j + 1, k);
        SoundAt(j);
      }
    }

    lemma SoundAt(j: nat)
      requires Header() && SoundJournal() && J.Chain(J.At(J.count)[1], FirstId(), Mount(), j + 1)
      ensures J.Sound(J.Desc(J.At(J.count)[1], j))
    {
      hide J.Complete, J.Desc, J.Sound, J.Chain;
    }

    /** Finds the complete transactions that follow each other, and caches their lists. */
    method JournalInit() returns (ok: bool)
      requires Valid() && transactions == 0 && SoundJournal()
      modifies this, table
      ensures Valid()
      ensures ok <==> Header()
      ensures !ok ==> transactions == 0
      ensures ok ==> firstDesc == J.At(J.count)[1]
      ensures ok ==> exists k: nat :: k <= J.count && transactions == Short(k) && Found(k)
    {
      hide Used, Lists, Found, Id, Filling, Short, J.Desc, J.Sound, J.Complete, J.Logged, J.Chain, SoundJournal, Pow2,
           HasDescMagic;
      var header := J.At(J.count);
      var d := header[1];
      if d >= J.count {
        return false;
      }
      firstDesc := d;
      var next := (header[0] + 1) % WORD;
      var at: nat := 0;
      ghost var k: nat, c: nat := 0, 0;
      StartFilling(d);
      NextOne(d, 0);
      NoChain();
      while true
        invariant firstDesc == header[1] && d == J.Desc(firstDesc, k) && d < J.count
        invariant next == Id(k) && k <= J.count
        invariant J.Chain(firstDesc, FirstId(), Mount(), k) && Filling(firstDesc, k, c, at)
        decreases J.count - k
      {
        var desc := J.At(d);
        CompleteIs(d, next);
        if !HasDescMagic(desc) || TransId(desc) != next || DescMount(desc) != header[2] {
          break;
        }
        var commitBlock := J.Wrapped(d + Length(desc) + 1);
        var commit := J.At(commitBlock);
        if TransId(desc) != TransId(commit) || Length(desc) != Length(commit) {
          break;
        }
        ChainMore(k);
        NextOne(firstDesc, k);
        next := (next + 1) % WORD;
        at, c := CacheTransaction(firstDesc, k, c, at, d, desc, commit);
        d := J.Wrapped(commitBlock + 1);
        k := k + 1;
      }
      FoundNow(k, d, next);
      Publish(next, header[0], k, c, at);
      return true;
    }

    /** Records how many transactions there are. */
    method Publish(next: nat, last: nat, ghost k: nat, ghost c: nat, ghost at: nat)
      requires Header() && SoundJournal() && firstDesc == J.At(J.count)[1] && last == J.At(J.count)[0]
      requires next == Id(k) && k <= J.count && Found(k) && Filling(firstDesc, k, c, at) && table.Length > 0
      modifies this`transactions, this`cached
      ensures Valid() && transactions == Short(k)
    {
      hide Used, Lists, Id, Difference, Short, J.Desc, J.Sound, J.Complete, J.Logged, SoundJournal;
      IdIs(k);
      AllSound(k);
      Counted(last, next, k);
      transactions := Short(Difference(next, last));
      TableShorter(table[..], firstDesc, c, k, transactions);
      cached := if c <= transactions then c else transactions;
    }

    lemma IdIs(k: nat)
      ensures Id(k) == ((J.At(J.count)[0] + 1) % WORD + k) % WORD
    {
    }

    lemma CompleteIs(d: nat, id: nat)
      requires J.count > 0
      ensures J.Complete(d, id, Mount()) <==>
              && HasDescMagic(J.At(d)) && TransId(J.At(d)) == id && DescMount(J.At(d)) == Mount()
              && TransId(J.At(J.CommitAt(d))) == TransId(J.At(d)) && Length(J.At(J.CommitAt(d))) == Length(J.At(d))
    {
    }

    lemma FoundNow(k: nat, d: nat, next: nat)
      requires J.Valid() && d < J.count && d == J.Desc(J.At(J.count)[1], k) && next == Id(k)
      requires J.Chain(J.At(J.count)[1], FirstId(), Mount(), k) && !J.Complete(d, next, Mount())
      ensures Found(k)
    {
    }

    /** `k` transactions are complete, and no more follow. */
    ghost predicate Found(k: nat)
      requires J.Valid()
    {
      var d := J.At(J.count)[1];
      J.Chain(d, FirstId(), Mount(), k) && !J.Complete(J.Desc(d, k), Id(k), Mount())
    }

    /** Which entry of a transaction logs the block, if any. */
    ghost predicate Searched(d: nat, blockNr: nat, found: bool, i: nat)
      requires J.count > 0
    {
      if found then 1 <= i <= |J.Logged(d)| && J.Logged(d)[i - 1] == blockNr
      else forall n :: 0 <= n < |J.Logged(d)| ==> J.Logged(d)[n] != blockNr
    }

    /** Searches a list in the table; `next` is where the following list begins. */
    method SearchTable(at: nat, blockNr: nat, ghost d: nat) returns (found: bool, i: nat, len: nat, next: nat)
      requires J.Valid() && Lists(J, table[..], d, at)
      ensures Searched(d, blockNr, found, i) && len == |J.Logged(d)| && next == at + 1 + len
    {
      hide J.Logged;
      var ptr := at;
      len := table[ptr];
      ptr := ptr + 1;
      i := 0;
      found := false;
      while i < len
        invariant 0 <= i <= len && ptr == at + 1 + i && !found
        invariant forall n :: 0 <= n < i ==> J.Logged(d)[n] != blockNr
      {
        i := i + 1;
        var word := table[ptr];
        assert word == table[at + 1 + (i - 1)];
        ptr := ptr + 1;
        if word == blockNr {
          ptr := ptr + (len - i);
          found := true;
          break;
        }
      }
      next := ptr;
    }

    /** Where the blocks logged are listed: in the descriptor, then in the commit block. */
    lemma ListedAt(d: nat, n: nat)
      requires J.count > 0 && J.Sound(d) && n < Length(J.At(d))
      ensures n < |J.Logged(d)| == Length(J.At(d)) <= 2 * JOURNAL_TRANS_HALF
      ensures J.Logged(d)[n] == RealBlock(J.At(d), J.At(J.CommitAt(d)), n)
    {
    }

    lemma CommitIs(d: nat)
      requires J.count > 0
      ensures J.CommitAt(d) == J.Wrapped(d + 1 + Length(J.At(d)))
    {
    }

    /** Searches a transaction's two list blocks on the disk. */
    method SearchDisk(d: nat, blockNr: nat) returns (found: bool, i: nat, len: nat)
      requires J.Valid() && J.Sound(d)
      ensures Searched(d, blockNr, found, i) && len == |J.Logged(d)|
    {
      hide J.Sound, J.Logged, J.CommitAt;
      var desc := J.At(d);
      len := Length(desc);
      i := 0;
      while i < len && i < JOURNAL_TRANS_HALF
        invariant 0 <= i <= len && i <= JOURNAL_TRANS_HALF
        invariant forall n :: 0 <= n < i ==> J.Logged(d)[n] != blockNr
      {
        ListedAt(d, i);
        i := i + 1;
        if desc[3 + (i - 1)] == blockNr {
          return true, i, len;
        }
      }
      if len >= JOURNAL_TRANS_HALF {
        var commitBlock := J.Wrapped(d + 1 + len);
        CommitIs(d);
        var commit := J.At(commitBlock);
        while i < len
          invariant JOURNAL_TRANS_HALF <= i <= len
          invariant forall n :: 0 <= n < i ==> J.Logged(d)[n] != blockNr
        {
          ListedAt(d, i);
          i := i + 1;
          if commit[2 + (i - 1 - JOURNAL_TRANS_HALF)] == blockNr {
            return true, i, len;
          }
        }
      }
      found := false;
    }

    /** One more transaction replayed. */
    lemma ReplayMore(d0: nat, k: nat, blockNr: nat, found: bool, i: nat, translated: nat)
      requires J.Valid() && J.Sound(J.Desc(d0, k)) && Searched(J.Desc(d0, k), blockNr, found, i)
      requires J.disk(translated) == J.ReplayAll(d0, k)(blockNr)
      ensures J.disk(if found then J.first + J.Wrapped(J.Desc(d0, k) + i) else translated)
           == J.ReplayAll(d0, k + 1)(blockNr)
    {
      hide J.Logged, J.Sound, J.Wrapped, J.Desc, J.Replayed;
      var d := J.Desc(d0, k);
      J.ReplayedAt(J.ReplayAll(d0, k), d, |J.Logged(d)|, blockNr);
      if found {
        assert J.Wrapped(d + 1 + (i - 1)) == J.Wrapped(d + i);
      }
    }

    lemma NextDesc(d0: nat, k: nat)
      requires J.Valid() && d0 < J.count
      ensures var d := J.Desc(d0, k); J.Desc(d0, k + 1) == J.Wrapped(d + 2 + |J.Logged(d)|)
    {
      var d := J.Desc(d0, k);
      WrappedTwice(d + Length(J.At(d)) + 1);
    }

    lemma WrappedTwice(n: nat)
      requires J.Valid()
      ensures J.Wrapped(J.Wrapped(n) + 1) == J.Wrapped(n + 1)
    {
      AddModulo(n, 1, J.count);
    }

    /** Reads a block, taking the journal into account. */
    method BlockRead(blockNr: nat) returns (data: Block)
      requires Valid()
      ensures data == J.ReplayAll(firstDesc, transactions)(blockNr)
    {
      hide J.Logged, J.Sound, J.Desc, J.ReplayAll, J.Wrapped, Lists, Used, Searched;
      var left := transactions;
      var d := firstDesc;
      var translated: nat := blockNr;
      var at: nat := 0;
      ghost var k: nat := 0;
      ReplayNone(blockNr);
      while left > 0
        invariant left + k == transactions && 0 <= left
        invariant transactions > 0 ==>
              d == J.Desc(firstDesc, k) && at == Used(J, firstDesc, if k < cached then k else cached)
        invariant J.disk(translated) == J.ReplayAll(firstDesc, k)(blockNr)
        decreases left
      {
        left := left - 1;
        var found, i, len;
        StartsList(k);
        UsedNext(J, firstDesc, k);
        if table[at] != END_MARK {
          found, i, len, at := SearchTable(at, blockNr, d);
        } else {
          found, i, len := SearchDisk(d, blockNr);
        }
        ReplayMore(firstDesc, k, blockNr, found, i, translated);
        if found {
          translated := J.first + J.Wrapped(d + i);
        }
        NextDesc(firstDesc, k);
        d := J.Wrapped(d + 2 + len);
        k := k + 1;
      }
      data := J.disk(translated);
    }

    lemma ReplayNone(blockNr: nat)
      requires J.Valid()
      ensures J.ReplayAll(firstDesc, 0)(blockNr) == J.disk(blockNr)
      ensures J.Desc(firstDesc, 0) == firstDesc && Used(J, firstDesc, 0) == 0
    {
    }

    /** The table word at the cursor tells whether the next list is in the table. */
    lemma StartsList(k: nat)
      requires Valid() && k < transactions
      ensures var at := Used(J, firstDesc, if k < cached then k else cached);
              && at < table.Length && J.Sound(J.Desc(firstDesc, k))
              && (table[at] != END_MARK <==> k < cached)
              && (k < cached ==> Lists(J, table[..], J.Desc(firstDesc, k), at))
    {
      hide J.Desc, Used;
      if k < cached {
        assert Lists(J, table[..], J.Desc(firstDesc, k), Used(J, firstDesc, k));
        assert J.Sound(J.Desc(firstDesc, k));
      }
    }

    lemma ChainHas(k: nat, j: nat)
      requires J.Valid() && J.Chain(J.At(J.count)[1], FirstId(), Mount(), k) && j < k
      ensures J.Complete(J.Desc(J.At(J.count)[1], j), Id(j), Mount())
    {
    }

    /** Only one number of transactions can have been found. */
    lemma FoundOnce(k: nat, m: nat)
      requires J.Valid() && Found(k) && Found(m)
      ensures k == m
    {
      hide J.Complete, J.Desc, J.Chain;
      if k < m {
        ChainHas(m, k);
      } else if m < k {
        ChainHas(k, m);
      }
    }
  }

  /** The 16-bit count forgets no transaction as long as there are fewer than 65536, as in any journal
      of fewer than 65536 blocks. */
  lemma NoneForgotten(r: JournalReader, k: nat)
    requires r.Header() && r.Found(k)
    ensures r.Short(k) == k <==> k < 0x1_0000
    ensures r.J.count < 0x1_0000 ==> k < 0x1_0000
  {
    r.J.ChainBounded(r.J.At(r.J.count)[1], r.FirstId(), r.Mount(), k);
  }

  lemma AddModulo(n: nat, k: nat, c: nat)
    requires c > 0
    ensures (n % c + k) % c == (n + k) % c
  {
    var q := n / c;
    var m := n % c + k;
    DivUnique(n + k, c, q + m / c, m % c);
  }
}
