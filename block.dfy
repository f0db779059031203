/**
 * Blocks: a pending block collects validated transactions up to a capacity, is finalized
 * against a PoH reference into a committed block, and a committed block is verified against
 * a verified PoH sequence.
 */
module Block {
  import opened Wrappers
  import opened Format
  import opened Transactions
  import Poh

  /** Rust's `{}` formatting of an `f64` amount. Left uninterpreted. */
  type AmountDisplay = Amount -> string

  /** The text one transaction contributes to the block hash: id, sender, receiver, amount, no signature. */
  function TransactionText(display: AmountDisplay, tx: ValidatedTransaction): string
  {
    Decimal(tx.id) + tx.sender + tx.receiver + display(tx.amount)
  }

  /** The texts of all transactions, in order, joined with no separator. */
  function TransactionsData(display: AmountDisplay, txs: seq<ValidatedTransaction>): string
  {
    if txs == [] then "" else TransactionText(display, txs[0]) + TransactionsData(display, txs[1..])
  }

  /** `CommittedBlock::calculate_hash`: index, previous hash, timestamp and the transaction texts, concatenated, then hashed. */
  function CalculateHash(hasher: Poh.HexHasher, display: AmountDisplay, index: U32, previousHash: string,
                         timestamp: U64, txs: seq<ValidatedTransaction>): (h: string)
    ensures h == hasher(Decimal(index) + previousHash + Decimal(timestamp) + TransactionsData(display, txs))
  {
    hasher(Decimal(index) + previousHash + Decimal(timestamp) + TransactionsData(display, txs))
  }

  /** The collected text of a list is the collected texts of its parts, joined in order. */
  lemma {:induction false} TransactionsDataAppend(display: AmountDisplay,
                                                  xs: seq<ValidatedTransaction>, ys: seq<ValidatedTransaction>)
    ensures TransactionsData(display, xs + ys) == TransactionsData(display, xs) + TransactionsData(display, ys)
  {
    if xs != [] {
      assert (xs + ys)[1..] == xs[1..] + ys;
      TransactionsDataAppend(display, xs[1..], ys);
    } else {
      assert xs + ys == ys;
    }
  }

  /** Two transactions that differ at most in their signatures. */
  ghost predicate SamePayload(a: ValidatedTransaction, b: ValidatedTransaction)
  {
    a.id == b.id && a.sender == b.sender && a.receiver == b.receiver && a.amount == b.amount
  }

  /** The transaction text, and hence the block hash, never looks at signatures. */
  lemma {:induction false} TransactionsDataIgnoresSignatures(display: AmountDisplay,
                                                             xs: seq<ValidatedTransaction>, ys: seq<ValidatedTransaction>)
    requires |xs| == |ys|
    requires forall i :: 0 <= i < |xs| ==> SamePayload(xs[i], ys[i])
    ensures TransactionsData(display, xs) == TransactionsData(display, ys)
  {
    if xs != [] {
      assert SamePayload(xs[0], ys[0]);
      TransactionsDataIgnoresSignatures(display, xs[1..], ys[1..]);
    }
  }

  lemma HashIgnoresSignatures(hasher: Poh.HexHasher, display: AmountDisplay, index: U32, previousHash: string,
                              timestamp: U64, xs: seq<ValidatedTransaction>, ys: seq<ValidatedTransaction>)
    requires |xs| == |ys|
    requires forall i :: 0 <= i < |xs| ==> SamePayload(xs[i], ys[i])
    ensures CalculateHash(hasher, display, index, previousHash, timestamp, xs)
         == CalculateHash(hasher, display, index, previousHash, timestamp, ys)
  {
    TransactionsDataIgnoresSignatures(display, xs, ys);
  }

  /**
   * The hash input is a plain concatenation, so field boundaries are lost: moving a character
   * from the end of a sender to the front of its receiver leaves the block hash unchanged,
   * whatever the hash function.
   */
  lemma BoundaryShiftKeepsHash(hasher: Poh.HexHasher, display: AmountDisplay, index: U32, previousHash: string,
                               timestamp: U64, tx: ValidatedTransaction, c: char)
    ensures var moved := tx.(sender := tx.sender + [c]);
            var shifted := tx.(receiver := [c] + tx.receiver);
            moved != shifted &&
            CalculateHash(hasher, display, index, previousHash, timestamp, [moved])
            == CalculateHash(hasher, display, index, previousHash, timestamp, [shifted])
  {
    var moved := tx.(sender := tx.sender + [c]);
    var shifted := tx.(receiver := [c] + tx.receiver);
    assert |moved.sender| != |shifted.sender|;
    assert TransactionText(display, moved) == TransactionText(display, shifted);
    assert TransactionsData(display, [moved]) == TransactionText(display, moved) + TransactionsData(display, []);
    assert TransactionsData(display, [shifted]) == TransactionText(display, shifted) + TransactionsData(display, []);
  }

  /** `poh.get_sequence().iter().find(|(t, _)| *t == tick)`: the first tick with that timestamp. */
  function FindTick(s: seq<Poh.Entry>, tick: U64): (r: Option<Poh.Entry>)
    ensures r.Some? ==> r.value in s && r.value.0 == tick
    ensures r.Some? ==> exists i :: 0 <= i < |s| && s[i] == r.value && forall j :: 0 <= j < i ==> s[j].0 != tick
    ensures r.None? ==> forall i :: 0 <= i < |s| ==> s[i].0 != tick
  {
    if s == [] then None
    else if s[0].0 == tick then Some(s[0])
    else FindTick(s[1..], tick)
  }

  /** `add_transaction`'s effect on the list: appended below capacity, dropped otherwise. */
  function Admit(txs: seq<ValidatedTransaction>, capacity: nat, tx: ValidatedTransaction): seq<ValidatedTransaction>
  {
    if |txs| < capacity then txs + [tx] else txs
  }

  /** The list after offering each of `offered` in turn. */
  function AdmitAll(txs: seq<ValidatedTransaction>, capacity: nat, offered: seq<ValidatedTransaction>): seq<ValidatedTransaction>
    decreases |offered|
  {
    if offered == [] then txs else AdmitAll(Admit(txs, capacity, offered[0]), capacity, offered[1..])
  }

  /**
   * Offering transactions one by one to a block within capacity keeps exactly as many of the
   * first ones, in order, as there is room for; the rest are dropped.
   */
  lemma {:induction false} AdmitAllKeepsFirst(txs: seq<ValidatedTransaction>, capacity: nat,
                                              offered: seq<ValidatedTransaction>)
    requires |txs| <= capacity
    ensures var room := capacity - |txs|;
            AdmitAll(txs, capacity, offered) == txs + offered[..if |offered| < room then |offered| else room]
    ensures |AdmitAll(txs, capacity, offered)| <= capacity
    decreases |offered|
  {
    if offered != [] {
      var next := Admit(txs, capacity, offered[0]);
      AdmitAllKeepsFirst(next, capacity, offered[1..]);
      var room := capacity - |txs|;
      if room > 0 {
        var n := if |offered| < room then |offered| else room;
        assert offered[1..][..n - 1] == offered[1..n];
        assert txs + offered[..n] == txs + [offered[0]] + offered[1..n];
      }
    }
  }

  datatype CommittedBlock = CommittedBlock(
    index: U32,
    timestamp: U64,
    previousHash: string,
    hash: string,
    pohReference: Poh.Entry,
    transactions: seq<ValidatedTransaction>)
  {
    /**
     * `verify`, as written: rejects an unresolved reference, then a tick mismatch, then a hash
     * mismatch. The tick lookup searches for the reference's own tick, so it never rejects,
     * and the stored `timestamp` is compared with nothing but the hash.
     */
    function Verify(hasher: Poh.HexHasher, display: AmountDisplay, poh: Poh.VerifiedPoh): (ok: bool)
      ensures ok <==> poh.VerifyReference(pohReference)
                      && hash == CalculateHash(hasher, display, index, previousHash, timestamp, transactions)
    {
      if !poh.VerifyReference(pohReference) then false
      else
        var tick := pohReference.0;
        var found := FindTick(poh.GetSequence(), tick);
        if found.Some? && found.value.0 != tick then false
        else hash == CalculateHash(hasher, display, index, previousHash, timestamp, transactions)
    }

    /**
     * `verify` with the timestamp cross-check comparing the block's own timestamp with the
     * tick of its reference.
     */
    function VerifyTimestamped(hasher: Poh.HexHasher, display: AmountDisplay, poh: Poh.VerifiedPoh): (ok: bool)
      ensures ok ==> pohReference in poh.sequence && timestamp == pohReference.0
      ensures ok <==> Verify(hasher, display, poh) && timestamp == pohReference.0
    {
      if !poh.VerifyReference(pohReference) then false
      else
        var tick := pohReference.0;
        var found := FindTick(poh.GetSequence(), tick);
        if found.Some? && found.value.0 != timestamp then false
        else hash == CalculateHash(hasher, display, index, previousHash, timestamp, transactions)
    }
  }

  class PendingBlock {
    var previousHash: string
    var transactions: seq<ValidatedTransaction>
    var maxTransactions: nat
    var timestamp: U64

    ghost predicate WithinCapacity()
      reads this
    {
      |transactions| <= maxTransactions
    }

    /** `PendingBlock::new`: no transactions, timestamp 0. */
    constructor (previousHash: string, maxTransactions: nat)
      ensures this.previousHash == previousHash && this.maxTransactions == maxTransactions
      ensures transactions == [] && timestamp == 0
      ensures WithinCapacity()
    {
      this.previousHash := previousHash;
      transactions := [];
      this.maxTransactions := maxTransactions;
      timestamp := 0;
    }

    /** `add_transaction`: appends below capacity; at capacity the transaction is dropped (only logged). */
    method AddTransaction(transaction: ValidatedTransaction)
      modifies this`transactions
      ensures transactions == Admit(old(transactions), maxTransactions, transaction)
      ensures old(|transactions|) < maxTransactions ==> transactions == old(transactions) + [transaction]
      ensures old(|transactions|) >= maxTransactions ==> transactions == old(transactions)
      ensures old(WithinCapacity()) ==> WithinCapacity()
    {
      if |transactions| < maxTransactions {
        transactions := transactions + [transaction];
      }
    }

    /** `finalize`: binds the block to a PoH reference, whose tick becomes the block's timestamp. */
    function Finalize(hasher: Poh.HexHasher, display: AmountDisplay, index: U32, pohReference: Poh.Entry): (b: CommittedBlock)
      reads this
      ensures b.index == index && b.previousHash == previousHash && b.transactions == transactions
      ensures b.pohReference == pohReference && b.timestamp == pohReference.0
      ensures b.hash == CalculateHash(hasher, display, index, previousHash, pohReference.0, transactions)
    {
      CommittedBlock(index, pohReference.0, previousHash,
                     CalculateHash(hasher, display, index, previousHash, pohReference.0, transactions),
                     pohReference, transactions)
    }
  }

  /** A freshly finalized block verifies exactly when its reference does. */
  lemma FinalizeThenVerify(block: PendingBlock, hasher: Poh.HexHasher, display: AmountDisplay, index: U32,
                           pohReference: Poh.Entry, poh: Poh.VerifiedPoh)
    ensures block.Finalize(hasher, display, index, pohReference).Verify(hasher, display, poh)
            == poh.VerifyReference(pohReference)
    ensures block.Finalize(hasher, display, index, pohReference).VerifyTimestamped(hasher, display, poh)
            == poh.VerifyReference(pohReference)
  {
  }

  /** Against a sorted sequence, a freshly finalized block verifies exactly when its reference is a stored tick. */
  lemma FinalizeThenVerifySorted(block: PendingBlock, hasher: Poh.HexHasher, display: AmountDisplay, index: U32,
                                 pohReference: Poh.Entry, poh: Poh.VerifiedPoh)
    requires Poh.Sorted(poh.sequence)
    ensures block.Finalize(hasher, display, index, pohReference).Verify(hasher, display, poh)
            <==> pohReference in poh.sequence
  {
  }

  /**
   * As written, `verify` accepts a block whose timestamp is not the tick of its reference,
   * as long as the hash was computed over that timestamp; the corrected check rejects it.
   */
  lemma StaleTimestampAccepted(hasher: Poh.HexHasher, display: AmountDisplay, poh: Poh.VerifiedPoh,
                               reference: Poh.Entry, timestamp: U64)
    requires Poh.Sorted(poh.sequence) && reference in poh.sequence
    requires timestamp != reference.0
    ensures var b := CommittedBlock(0, timestamp, "", CalculateHash(hasher, display, 0, "", timestamp, []), reference, []);
            b.Verify(hasher, display, poh) && !b.VerifyTimestamped(hasher, display, poh)
  {
  }
}
