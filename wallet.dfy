/**
 * The wallet's `Blockchain` object: the chain and the account table as
 * fields updated in place. Each method is proved to leave the fields, and
 * to return, exactly what the matching function of module Ledger says, so
 * every property proved there (conservation, the invariants, the failure
 * cases) holds of the object.
 */
module Wallet {
  import opened PhoneFormat
  import opened Blocks
  import opened Accounts
  import opened Ledger

  class Blockchain {
    /** The digest functions the blocks and transactions are hashed with. */
    const hashing: Hashing
    var chain: seq<Block>
    /** The account table, `pendingTransactions` in the wallet. */
    var accounts: seq<Account>

    ghost function Snapshot(): State
      reads this
    {
      State(chain, accounts)
    }

    /** A store that is missing or empty: the genesis block alone, no accounts. */
    constructor (hashing: Hashing, timestamp: int)
      ensures this.hashing == hashing
      ensures Snapshot() == Genesis(hashing, timestamp)
    {
      this.hashing := hashing;
      chain := [NewBlock(hashing, "0", timestamp)];
      accounts := [];
    }

    /** A store read back from disk: chain and table are taken as they are, unchecked. */
    constructor Load(hashing: Hashing, chain: seq<Block>, accounts: seq<Account>)
      ensures this.hashing == hashing && this.chain == chain && this.accounts == accounts
    {
      this.hashing := hashing;
      this.chain := chain;
      this.accounts := accounts;
    }

    /**
     * `isChainValid`: walks the chain from block 1 and stops at the first
     * block whose hash or link is wrong.
     */
    method IsChainValid() returns (valid: bool, message: string)
      ensures valid <==> ValidChain(hashing, chain)
      ensures valid <==> CheckChain(hashing, chain) == Intact
      ensures message == VerdictMessage(CheckChain(hashing, chain))
    {
      CheckChainSound(hashing, chain);
      var i := 1;
      while i < |chain|
        invariant 1 <= i
        invariant CheckFrom(hashing, chain, i) == CheckChain(hashing, chain)
        decreases |chain| - i
      {
        var currentBlock := chain[i];
        var previousBlock := chain[i - 1];
        if currentBlock.hash != CalculateHash(hashing, currentBlock) {
          return false, VerdictMessage(Altered(i));
        }
        if currentBlock.previousHash != previousBlock.hash {
          return false, VerdictMessage(Altered(i - 1));
        }
        i := i + 1;
      }
      return true, VerdictMessage(Intact);
    }

    /** `validateBlockchain`: whether the walk found the chain intact. */
    method ValidateBlockchain() returns (intact: bool)
      ensures intact <==> ValidChain(hashing, chain)
    {
      var message;
      intact, message := IsChainValid();
    }

    /**
     * `addTransaction`: the checks in order, then the debit, the credit
     * (which raises when the recipient has no entry) and the new block.
     */
    method AddTransaction(transaction: Transaction, blockTimestamp: int) returns (outcome: Outcome)
      modifies this
      ensures (Snapshot(), outcome) == SubmitStep(hashing, old(Snapshot()), transaction, blockTimestamp)
    {
      ghost var s := Snapshot();
      SubmitRejects(hashing, s, transaction, blockTimestamp);
      var intact := ValidateBlockchain();
      assert chain == s.chain && accounts == s.accounts;
      if !intact {
        return Failed(ChainCorrupted);
      }
      var fromAccount := Find(accounts, transaction.fromAddress);
      var toAccount := Find(accounts, transaction.toAddress);
      if !IsValidPhone(transaction.fromAddress) || !IsValidPhone(transaction.toAddress) {
        return Failed(InvalidPhone);
      }
      if fromAccount.None? || accounts[fromAccount.value].balance < transaction.amount {
        return Failed(InsufficientFunds);
      }
      SubmitAt(hashing, s, transaction, blockTimestamp, fromAccount.value, toAccount);
      var i := fromAccount.value;
      accounts := Credit(accounts, i, -transaction.amount);
      if toAccount.None? {
        return Threw;
      }
      var j := toAccount.value;
      accounts := Credit(accounts, j, transaction.amount);
      var newBlock := NewBlock(hashing, TailHash(chain), blockTimestamp);
      newBlock := WithTransaction(newBlock, transaction);
      newBlock := Rehash(hashing, newBlock);
      chain := chain + [newBlock];
      return Success(newBlock.hash);
    }

    /**
     * `addFunds`: credit an existing account. The "add" transaction it
     * builds is never recorded, so `adminPhone` and `timestamp` change nothing.
     */
    method AddFunds(adminPhone: string, phone: string, amount: int, timestamp: int) returns (message: string)
      modifies this
      ensures (Snapshot(), message) == FundStep(old(Snapshot()), phone, amount)
    {
      var account := Find(accounts, phone);
      if account.Some? {
        var i := account.value;
        accounts := Credit(accounts, i, amount);
        var transaction := NewTransaction(hashing, adminPhone, phone, amount, Add, timestamp);
        return FundedMessage(phone, amount);
      }
      return AccountNotFoundMessage;
    }

    /**
     * `transferFunds`: both accounts must exist; the rest is `addTransaction`'s.
     * The reply is the message the caller shows; there is none when
     * `addTransaction` raised.
     */
    method TransferFunds(fromPhone: string, toPhone: string, amount: int, txTimestamp: int, blockTimestamp: int)
      returns (outcome: Outcome, reply: Option<string>)
      modifies this
      ensures (Snapshot(), outcome)
              == TransferStep(hashing, old(Snapshot()), fromPhone, toPhone, amount, txTimestamp, blockTimestamp)
      ensures reply == if outcome.Threw? then None else Some(OutcomeMessage(outcome))
    {
      var fromAccount := Find(accounts, fromPhone);
      var toAccount := Find(accounts, toPhone);
      if fromAccount.None? || toAccount.None? {
        outcome := Failed(AccountMissing);
      } else {
        var transaction := NewTransaction(hashing, fromPhone, toPhone, amount, Transfer, txTimestamp);
        outcome := AddTransaction(transaction, blockTimestamp);
      }
      reply := if outcome.Threw? then None else Some(OutcomeMessage(outcome));
    }

    /** `getBalance`: the balance of the first entry with the address, 0 when there is none. */
    function GetBalance(phone: string): (balance: int)
      reads this
      ensures Absent(accounts, phone) ==> balance == 0
      ensures forall j: nat :: IsFirst(accounts, phone, j) ==> balance == accounts[j].balance
    {
      Balance(accounts, phone)
    }

    /** `createAccount`: a new address gets a zero-balance entry; a known one is refused. */
    method CreateAccount(fromAddress: string) returns (message: string)
      modifies this
      ensures (Snapshot(), message) == CreateStep(old(Snapshot()), fromAddress)
    {
      var existingAccount := Find(accounts, fromAddress);
      if existingAccount.Some? {
        return AccountExistsMessage;
      }
      accounts := accounts + [Account(fromAddress, 0)];
      return CreatedMessage(fromAddress);
    }
  }
}
