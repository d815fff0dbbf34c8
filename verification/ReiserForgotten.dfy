/** A journal of 65536 transactions, of which a reader with a 16-bit count sees none. */
module ReiserForgotten {
  import opened Words
  import opened ReiserJournal

  /** Where the journal begins: behind the superblock, which stands 64K from the start of the device. */
  const FIRST: nat := 32
  const SIZE: nat := 0x4_0000
  const TRANSACTIONS: nat := 0x1_0000
  /** The block that every transaction logs. */
  const LOGGED: nat := 300000

  /** A block with four words of its own, and the magic of a descriptor or not. */
  function Words4(a: Word, b: Word, c: Word, d: Word, magic: bool): (r: Block)
    ensures r[0] == a && r[1] == b && r[2] == c && r[3] == d && (HasDescMagic(r) <==> magic)
  {
    seq(DESC_WORDS, i =>
      if i == 0 then a else if i == 1 then b else if i == 2 then c else if i == 3 then d
      else if i == 1021 && magic then 0x73496552 else if i == 1022 && magic then 0x424c7245 else 0)
  }

  /** The journal: transaction `n / 3` is a descriptor, one log block and a commit block; what follows,
      including the header behind the last block, is zero. */
  function Image(n: nat): Block {
    if n >= 3 * TRANSACTIONS then Words4(0, 0, 0, 0, false)
    else if n % 3 == 0 then Words4(n / 3 + 1, 1, 0, LOGGED, true)
    else if n % 3 == 1 then Words4(7, 0, 0, 0, false)
    else Words4(n / 3 + 1, 1, 0, 0, false)
  }

  /** The device, of which blocks outside the journal do not matter. */
  function Device(b: nat): Block {
    if b < FIRST then Words4(0, 0, 0, 0, false) else Image(b - FIRST)
  }

  function TheJournal(): Journal {
    Journal(Device, FIRST, SIZE)
  }

  lemma Places(k: nat)
    requires k < TRANSACTIONS
    ensures Image(3 * k) == Words4(k + 1, 1, 0, LOGGED, true)
    ensures Image(3 * k + 1) == Words4(7, 0, 0, 0, false)
    ensures Image(3 * k + 2) == Words4(k + 1, 1, 0, 0, false)
  {
  }

  lemma JournalValid()
    ensures TheJournal().Valid()
  {
    assert Pow2(6) == 64 && Pow2(12) == 64 * Pow2(6) && Pow2(18) == 64 * Pow2(12) by {
      assert Pow2(2) == 4 && Pow2(4) == 16;
      assert Pow2(8) == 4 * Pow2(6) && Pow2(10) == 4 * Pow2(8) && Pow2(12) == 4 * Pow2(10);
      assert Pow2(14) == 4 * Pow2(12) && Pow2(16) == 4 * Pow2(14) && Pow2(18) == 4 * Pow2(16);
    }
  }

  /** Each transaction is complete and logs the one block. */
  lemma OneTransaction(k: nat)
    requires k < TRANSACTIONS
    ensures var J := TheJournal();
            && J.Complete(3 * k, k + 1, 0) && J.After(3 * k) == 3 * (k + 1)
            && J.Logged(3 * k) == [LOGGED] && J.Sound(3 * k)
  {
    hide Image, HasDescMagic, Words4;
    Places(k);
  }

  lemma {:induction false} DescAt(k: nat)
    requires k <= TRANSACTIONS
    ensures TheJournal().Desc(0, k) == 3 * k
    decreases k
  {
    hide Image;
    if k > 0 {
      DescAt(k - 1);
      OneTransaction(k - 1);
    }
  }

  lemma NoneBehind(id: nat, mount: nat)
    ensures !TheJournal().Complete(3 * TRANSACTIONS, id, mount)
  {
  }

  lemma ChainAll(n: nat)
    requires n == TRANSACTIONS
    ensures TheJournal().Chain(0, 1, 0, n)
  {
    var J := TheJournal();
    hide Image, J.Complete, J.Desc, HasDescMagic;
    forall j: nat | j < n
      ensures J.Complete(J.Desc(0, j), (1 + j) % WORD, 0)
    {
      DescAt(j);
      OneTransaction(j);
    }
  }

  lemma ChainShort(n: nat, k: nat)
    requires n == TRANSACTIONS && TheJournal().Chain(0, 1, 0, k + 1)
    ensures k < n
  {
    var J := TheJournal();
    hide Image, J.Complete, J.Desc, HasDescMagic;
    if k >= n {
      ChainHas(n, k);
      DescAt(n);
      NoneBehind((1 + n) % WORD, 0);
    }
  }

  lemma ChainHas(n: nat, k: nat)
    requires n <= k && TheJournal().Chain(0, 1, 0, k + 1)
    ensures TheJournal().Complete(TheJournal().Desc(0, n), (1 + n) % WORD, 0)
  {
    var J := TheJournal();
    hide J.Complete, J.Desc;
  }

  lemma SoundAll(n: nat, k: nat)
    requires n == TRANSACTIONS && TheJournal().Chain(0, 1, 0, k + 1)
    ensures TheJournal().Sound(TheJournal().Desc(0, k))
  {
    var J := TheJournal();
    hide Image, J.Complete, J.Desc, J.Chain, J.Sound, J.Logged;
    ChainShort(n, k);
    DescAt(k);
    OneTransaction(k);
  }

  /** The reader finds all of them, and each is well formed. */
  lemma AllFound(r: JournalReader, n: nat)
    requires r.J == TheJournal() && n == TRANSACTIONS
    ensures r.J.Valid() && r.Header() && r.Found(n) && r.SoundJournal()
  {
    var J := TheJournal();
    hide Image, J.Complete, J.Desc, J.Chain, J.Sound, J.Logged;
    JournalValid();
    HeaderIs(r);
    ChainAll(n);
    DescAt(n);
    NoneBehind(r.Id(n), 0);
    forall k: nat | J.Chain(0, 1, 0, k + 1)
      ensures J.Sound(J.Desc(0, k))
    {
      SoundAll(n, k);
    }
  }

  lemma HeaderIs(r: JournalReader)
    requires r.J == TheJournal()
    ensures r.J.At(r.J.count)[1] == 0 && r.FirstId() == 1 && r.Mount() == 0
  {
  }

  /** What the logged block holds after `n` transactions from `desc` on have been replayed. */
  ghost function Contents(desc: nat, n: nat): Block {
    TheJournal().ReplayAll(desc, n)(LOGGED)
  }

  /** Replaying them puts the log block of the last one in place. */
  lemma LastReplayed(n: nat)
    requires n == TRANSACTIONS
    ensures Contents(0, n) == Words4(7, 0, 0, 0, false)
  {
    var J, k := TheJournal(), n - 1;
    hide Image, Words4, J.ReplayAll, J.Desc, J.Logged, J.Sound, J.At;
    DescAt(k);
    OneTransaction(k);
    LogBlock(k);
    J.LastDecides(0, k, 3 * k, 0);
  }

  lemma LogBlock(k: nat)
    requires k < TRANSACTIONS
    ensures var J := TheJournal(); J.At(J.Wrapped(3 * k + 1)) == Words4(7, 0, 0, 0, false)
  {
    hide Image, Words4;
    Places(k);
    assert TheJournal().Wrapped(3 * k + 1) == 3 * k + 1;
  }

  /** Whichever reader has searched this journal counts no transaction, and so reads from the block what
      it held before all of them. */
  lemma NoneCounted(r: JournalReader, k: nat, n: nat)
    requires r.J == TheJournal() && r.J.Valid() && r.Found(k) && r.transactions == r.Short(k) && n == TRANSACTIONS
    ensures k == n && r.transactions == 0
    ensures Contents(r.firstDesc, r.transactions)[0] == 0 && Contents(0, k)[0] == 7
  {
    hide Device, Words4, Contents, JournalReader.Found, Journal.ReplayAll, Journal.Valid;
    AllFound(r, n);
    r.FoundOnce(k, n);
    LastReplayed(n);
    NothingReplayed(r.firstDesc);
    BehindTransactions();
  }

  /** A reader of the journal, and what it returns. */
  method AllForgotten() returns (r: JournalReader, data: Block)
    ensures r.J == TheJournal() && r.Valid() && r.Found(TRANSACTIONS) && r.transactions == 0
    ensures data == Contents(r.firstDesc, r.transactions) && data[0] == 0 && Contents(0, TRANSACTIONS)[0] == 7
  {
    hide Device, Words4, Contents, JournalReader.Found, JournalReader.SoundJournal, Journal.ReplayAll, Journal.Valid;
    JournalValid();
    r := new JournalReader(Device, FIRST, SIZE, 1024);
    AllFound(r, TRANSACTIONS);
    var ok := r.JournalInit();
    ghost var k: nat :| k <= SIZE && r.transactions == r.Short(k) && r.Found(k);
    NoneCounted(r, k, TRANSACTIONS);
    data := r.BlockRead(LOGGED);
    ContentsAre(r.firstDesc, r.transactions);
  }

  lemma ContentsAre(desc: nat, n: nat)
    ensures Contents(desc, n) == TheJournal().ReplayAll(desc, n)(LOGGED)
  {
    hide Journal.ReplayAll;
  }

  lemma NothingReplayed(d: nat)
    ensures Contents(d, 0) == Device(LOGGED)
  {
  }

  lemma BehindTransactions()
    ensures Device(LOGGED) == Words4(0, 0, 0, 0, false)
  {
  }
}
