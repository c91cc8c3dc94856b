/**
 * Transactions, blocks and the integrity walk over a chain of blocks.
 *
 * The wallet digests a transaction and a block with SHA-256 over a JSON
 * rendering. Neither is modelled: a `Hashing` value supplies the two digest
 * functions, deterministic and otherwise unknown, and every property below
 * holds for all of them. Nothing relies on the digests being collision free.
 */
module Blocks {
  import Text

  /** The `type` of a transaction: "add" for funding, "transfer" for a transfer. */
  datatype TxType = Add | Transfer

  datatype Transaction = Transaction(
    fromAddress: string,
    toAddress: string,
    amount: int,
    txType: TxType,
    timestamp: int,
    hash: string)

  datatype Hashing = Hashing(
    transaction: (string, string, int, TxType, int) -> string,
    block: (seq<Transaction>, string, int) -> string)

  /** The stored hash is the digest of the transaction's other fields. */
  ghost predicate TxSealed(h: Hashing, tx: Transaction) {
    tx.hash == h.transaction(tx.fromAddress, tx.toAddress, tx.amount, tx.txType, tx.timestamp)
  }

  /**
   * A new transaction carries the given fields and is digested once, over
   * those fields, when it is built (its hash field is still unset then).
   */
  function NewTransaction(h: Hashing, fromAddress: string, toAddress: string, amount: int,
                          txType: TxType, timestamp: int): (tx: Transaction)
    ensures TxSealed(h, tx)
    ensures tx.fromAddress == fromAddress && tx.toAddress == toAddress && tx.amount == amount
    ensures tx.txType == txType && tx.timestamp == timestamp
  {
    Transaction(fromAddress, toAddress, amount, txType, timestamp,
                h.transaction(fromAddress, toAddress, amount, txType, timestamp))
  }

  datatype Block = Block(
    previousHash: string,
    transactions: seq<Transaction>,
    timestamp: int,
    hash: string)

  /** `calculateHash`: the digest of the transactions, the previous hash and the timestamp. */
  function CalculateHash(h: Hashing, b: Block): string {
    h.block(b.transactions, b.previousHash, b.timestamp)
  }

  /** The stored hash is the one recomputed from the block's contents. */
  ghost predicate Sealed(h: Hashing, b: Block) {
    b.hash == CalculateHash(h, b)
  }

  /** A new block: no transactions yet, hashed at once. */
  function NewBlock(h: Hashing, previousHash: string, timestamp: int): (b: Block)
    ensures Sealed(h, b) && b.transactions == [] && b.previousHash == previousHash
    ensures b.timestamp == timestamp
  {
    var empty := Block(previousHash, [], timestamp, "");
    empty.(hash := CalculateHash(h, empty))
  }

  /** `addTransaction` of a block: the transaction goes last, and the hash is left as it was. */
  function WithTransaction(b: Block, tx: Transaction): Block {
    b.(transactions := b.transactions + [tx])
  }

  function Rehash(h: Hashing, b: Block): Block {
    b.(hash := CalculateHash(h, b))
  }

  /**
   * The digest covers the transactions, the previous hash and the timestamp
   * only: the stored hash does not enter it, so recomputing it seals a block
   * whatever hash it held, and changes nothing else.
   */
  lemma HashIgnoresStoredHash(h: Hashing, b: Block, stored: string)
    ensures CalculateHash(h, b.(hash := stored)) == CalculateHash(h, b)
    ensures Sealed(h, Rehash(h, b)) && Rehash(h, b).(hash := b.hash) == b
  {
  }

  /** The block a successful transaction is recorded in: created, given the transaction, then hashed again. */
  function SealedBlock(h: Hashing, previousHash: string, timestamp: int, tx: Transaction): (b: Block)
    ensures Sealed(h, b)
    ensures b.previousHash == previousHash && b.transactions == [tx] && b.timestamp == timestamp
  {
    Rehash(h, WithTransaction(NewBlock(h, previousHash, timestamp), tx))
  }

  /** The hash a new block links to: the last block's, or "0" when there is none. */
  function TailHash(chain: seq<Block>): string {
    if |chain| > 0 then chain[|chain| - 1].hash else "0"
  }

  /** A block appended to a chain becomes its tail; an empty chain has tail "0". */
  lemma TailHashAppend(chain: seq<Block>, b: Block)
    ensures TailHash(chain + [b]) == b.hash
    ensures TailHash([]) == "0"
  {
  }

  /** The outcome of the integrity walk: intact, or the index of the block it reports as altered. */
  datatype Verdict = Intact | Altered(block: nat)

  function VerdictMessage(v: Verdict): string {
    match v
    case Intact => "Blockchain está íntegra."
    case Altered(i) => "Bloco " + Text.NatToString(i) + " foi alterado!"
  }

  /**
   * The walk from block i on: the first block whose stored hash differs from
   * the recomputed one is reported itself; the first whose previous-hash
   * link is broken has its predecessor reported.
   */
  function CheckFrom(h: Hashing, chain: seq<Block>, i: nat): (v: Verdict)
    requires 1 <= i
    ensures v.Altered? ==> i - 1 <= v.block < |chain|
    decreases |chain| - i
  {
    if i >= |chain| then Intact
    else if chain[i].hash != CalculateHash(h, chain[i]) then Altered(i)
    else if chain[i].previousHash != chain[i - 1].hash then Altered(i - 1)
    else CheckFrom(h, chain, i + 1)
  }

  /** `isChainValid`: the walk starts at block 1, so block 0's own hash is never recomputed. */
  function CheckChain(h: Hashing, chain: seq<Block>): Verdict {
    CheckFrom(h, chain, 1)
  }

  /** Block i (i >= 1) is sealed and links to its predecessor. */
  ghost predicate BlockOk(h: Hashing, chain: seq<Block>, i: nat)
    requires 1 <= i < |chain|
  {
    Sealed(h, chain[i]) && chain[i].previousHash == chain[i - 1].hash
  }

  /** The chain invariant: every block after the first is sealed and linked. */
  ghost predicate ValidChain(h: Hashing, chain: seq<Block>) {
    forall i :: 1 <= i < |chain| ==> BlockOk(h, chain, i)
  }

  lemma {:induction false} CheckFromIntact(h: Hashing, chain: seq<Block>, i: nat)
    requires 1 <= i
    ensures CheckFrom(h, chain, i) == Intact <==> forall j :: i <= j < |chain| ==> BlockOk(h, chain, j)
    decreases |chain| - i
  {
    if i < |chain| {
      CheckFromIntact(h, chain, i + 1);
      if forall j :: i <= j < |chain| ==> BlockOk(h, chain, j) {
        assert BlockOk(h, chain, i);
      }
    }
  }

  /** The walk reports Intact exactly when the chain invariant holds. */
  lemma CheckChainSound(h: Hashing, chain: seq<Block>)
    ensures CheckChain(h, chain) == Intact <==> ValidChain(h, chain)
  {
    CheckFromIntact(h, chain, 1);
  }

  lemma {:induction false} FirstFailureFrom(h: Hashing, chain: seq<Block>, i: nat, k: nat)
    requires 1 <= i <= k < |chain|
    requires forall j :: i <= j < k ==> BlockOk(h, chain, j)
    requires !BlockOk(h, chain, k)
    ensures CheckFrom(h, chain, i) == if !Sealed(h, chain[k]) then Altered(k) else Altered(k - 1)
    decreases k - i
  {
    if i < k {
      assert BlockOk(h, chain, i);
      FirstFailureFrom(h, chain, i + 1, k);
    }
  }

  /**
   * First failure wins: when block k is the first that is not sealed and
   * linked, the walk reports k if its hash was altered, and k - 1 if only
   * its link is broken; nothing after k matters.
   */
  lemma FirstFailureWins(h: Hashing, chain: seq<Block>, k: nat)
    requires 1 <= k < |chain|
    requires forall j :: 1 <= j < k ==> BlockOk(h, chain, j)
    requires !BlockOk(h, chain, k)
    ensures CheckChain(h, chain) == if !Sealed(h, chain[k]) then Altered(k) else Altered(k - 1)
  {
    FirstFailureFrom(h, chain, 1, k);
  }

  /** A chain of at most one block is always reported intact. */
  lemma ShortChainIntact(h: Hashing, chain: seq<Block>)
    requires |chain| <= 1
    ensures CheckChain(h, chain) == Intact
  {
  }

  lemma {:induction false} CheckFromIgnoresFirst(h: Hashing, chain: seq<Block>, other: seq<Block>, i: nat)
    requires 1 <= i && |chain| == |other| >= 1
    requires chain[0].hash == other[0].hash
    requires forall j :: 1 <= j < |chain| ==> chain[j] == other[j]
    ensures CheckFrom(h, chain, i) == CheckFrom(h, other, i)
    decreases |chain| - i
  {
    if i < |chain| {
      CheckFromIgnoresFirst(h, chain, other, i + 1);
    }
  }

  /**
   * Block 0 is checked only through its stored hash: replacing it by any
   * block with the same stored hash (sealed or not) does not change the verdict.
   */
  lemma GenesisContentUnchecked(h: Hashing, chain: seq<Block>, b: Block)
    requires |chain| >= 1 && b.hash == chain[0].hash
    ensures CheckChain(h, [b] + chain[1..]) == CheckChain(h, chain)
  {
    var other := [b] + chain[1..];
    CheckFromIgnoresFirst(h, chain, other, 1);
  }

  /** Appending a sealed block that links to the tail keeps a valid chain valid. */
  lemma AppendKeepsValid(h: Hashing, chain: seq<Block>, b: Block)
    requires ValidChain(h, chain)
    requires Sealed(h, b) && b.previousHash == TailHash(chain)
    ensures ValidChain(h, chain + [b])
  {
    var c := chain + [b];
    forall i | 1 <= i < |c| ensures BlockOk(h, c, i) {
      if i < |chain| {
        assert BlockOk(h, chain, i);
      }
    }
  }
}
