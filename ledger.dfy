/**
 * What each operation of the wallet's `Blockchain` does, as a function from
 * the ledger state before to the state after and the result returned, and
 * the properties of those functions: failures change nothing, a transfer
 * conserves the total balance and appends one block linked to the old tail,
 * and the chain invariant, unique addresses and non-negative balances are
 * kept. The class in module Wallet is proved to behave as these functions say.
 */
module Ledger {
  import opened Text
  import opened PhoneFormat
  import opened Blocks
  import opened Accounts

  /** The two fields of the ledger: the chain and the account table. */
  datatype State = State(chain: seq<Block>, accounts: seq<Account>)

  /** Why `addTransaction` or `transferFunds` refused. */
  datatype Failure = ChainCorrupted | InvalidPhone | InsufficientFunds | AccountMissing

  /**
   * `{success, message, hash}`: success carries the new block's hash.
   * `Threw` stands for the TypeError `addTransaction` raises when the
   * recipient has no entry; it returns nothing.
   */
  datatype Outcome = Success(hash: string) | Failed(reason: Failure) | Threw

  function OutcomeMessage(o: Outcome): string
    requires !o.Threw?
  {
    match o
    case Success(_) => "Transação realizada com sucesso!"
    case Failed(ChainCorrupted) => "A blockchain foi corrompida e não pode processar transações."
    case Failed(InvalidPhone) => "Formato de telefone inválido."
    case Failed(InsufficientFunds) => "Saldo insuficiente."
    case Failed(AccountMissing) => "Uma das contas não existe."
  }

  /**
   * The reply tells the caller which outcome it got: two replies are equal
   * exactly when both are successes (whatever their hashes) or the same
   * failure.
   */
  lemma OutcomeMessageIdentifies(o1: Outcome, o2: Outcome)
    requires !o1.Threw? && !o2.Threw?
    ensures OutcomeMessage(o1) == OutcomeMessage(o2) <==> (o1.Success? && o2.Success?) || o1 == o2
  {
    if OutcomeMessage(o1) == OutcomeMessage(o2) {
      assert OutcomeMessage(o1)[0] == OutcomeMessage(o2)[0];
    }
  }

  const AccountNotFoundMessage: string := "Conta não encontrada."
  const AccountExistsMessage: string := "⚠️ Conta já existe."

  function FundedMessage(phone: string, amount: int): string {
    "Saldo de " + phone + " aumentado em R$" + CentsToString(amount) + "."
  }

  function CreatedMessage(address: string): string {
    "✅ Conta criada com sucesso para " + address + "."
  }

  /** The state a missing or empty store is initialised with: the genesis block, no accounts. */
  function Genesis(h: Hashing, timestamp: int): State {
    State([NewBlock(h, "0", timestamp)], [])
  }

  /** The invariants the operations keep. */
  ghost predicate Healthy(h: Hashing, s: State) {
    ValidChain(h, s.chain) && Unique(s.accounts) && NonNegative(s.accounts)
  }

  /**
   * The first check of `addTransaction` that a transaction fails, in the
   * order the source makes them: the chain, then both identifiers, then the
   * sender's entry and funds.
   */
  ghost function Rejection(h: Hashing, s: State, tx: Transaction): Option<Failure> {
    if !ValidChain(h, s.chain) then Some(ChainCorrupted)
    else if !IsValidPhone(tx.fromAddress) || !IsValidPhone(tx.toAddress) then Some(InvalidPhone)
    else if Find(s.accounts, tx.fromAddress).None? || Balance(s.accounts, tx.fromAddress) < tx.amount then
      Some(InsufficientFunds)
    else None
  }

  /**
   * The account half of a committed transaction: both entries are looked up
   * first, then the sender's is debited and the recipient's credited.
   */
  function Settle(accounts: seq<Account>, tx: Transaction): seq<Account>
    requires Find(accounts, tx.fromAddress).Some? && Find(accounts, tx.toAddress).Some?
  {
    var i, j := Find(accounts, tx.fromAddress).value, Find(accounts, tx.toAddress).value;
    Credit(Credit(accounts, i, -tx.amount), j, tx.amount)
  }

  /** Every check of `addTransaction` passes. */
  ghost predicate Admissible(h: Hashing, s: State, tx: Transaction) {
    && ValidChain(h, s.chain) && IsValidPhone(tx.fromAddress) && IsValidPhone(tx.toAddress)
    && !Absent(s.accounts, tx.fromAddress) && tx.amount <= Balance(s.accounts, tx.fromAddress)
  }

  /**
   * What `addTransaction` does once every check passed: settle the amounts
   * and record the transaction in a new block linked to the tail; the
   * result carries that block's hash.
   */
  ghost function Commit(h: Hashing, s: State, tx: Transaction, blockTimestamp: int): (State, Outcome)
    requires Find(s.accounts, tx.fromAddress).Some? && Find(s.accounts, tx.toAddress).Some?
  {
    var block := SealedBlock(h, TailHash(s.chain), blockTimestamp, tx);
    (State(s.chain + [block], Settle(s.accounts, tx)), Success(block.hash))
  }

  /**
   * `addTransaction`: refuse with no change, or commit. The recipient's
   * entry is never checked: when it is missing the sender has already been
   * debited as the credit raises a TypeError, and the debit stays.
   */
  ghost function SubmitStep(h: Hashing, s: State, tx: Transaction, blockTimestamp: int): (State, Outcome) {
    match Rejection(h, s, tx)
    case Some(f) => (s, Failed(f))
    case None =>
      if Find(s.accounts, tx.toAddress).None? then
        (s.(accounts := Deposit(s.accounts, tx.fromAddress, -tx.amount)), Threw)
      else Commit(h, s, tx, blockTimestamp)
  }

  /** `transferFunds`: both accounts must exist; then a "transfer" transaction is submitted. */
  ghost function TransferStep(h: Hashing, s: State, fromPhone: string, toPhone: string, amount: int,
                              txTimestamp: int, blockTimestamp: int): (State, Outcome)
  {
    if Find(s.accounts, fromPhone).None? || Find(s.accounts, toPhone).None? then (s, Failed(AccountMissing))
    else SubmitStep(h, s, NewTransaction(h, fromPhone, toPhone, amount, Transfer, txTimestamp), blockTimestamp)
  }

  /** `addFunds`: credit an existing account; no chain check, no identifier check, no block. */
  ghost function FundStep(s: State, phone: string, amount: int): (State, string) {
    if Find(s.accounts, phone).None? then (s, AccountNotFoundMessage)
    else (s.(accounts := Deposit(s.accounts, phone, amount)), FundedMessage(phone, amount))
  }

  /** `createAccount`: add a zero-balance entry for a new address; no checks, no block. */
  ghost function CreateStep(s: State, address: string): (State, string) {
    if Find(s.accounts, address).Some? then (s, AccountExistsMessage)
    else (s.(accounts := s.accounts + [Account(address, 0)]), CreatedMessage(address))
  }

  /** The genesis state satisfies the invariants, and its chain passes the integrity walk. */
  lemma GenesisHealthy(h: Hashing, timestamp: int)
    ensures Healthy(h, Genesis(h, timestamp))
    ensures CheckChain(h, Genesis(h, timestamp).chain) == Intact
  {
    CheckChainSound(h, Genesis(h, timestamp).chain);
  }

  /**
   * A submission fails exactly when the chain is corrupt, an identifier is
   * malformed, the sender is missing or short of funds; the checks apply in
   * that order, and a failure leaves the state as it was.
   */
  lemma SubmitRejects(h: Hashing, s: State, tx: Transaction, blockTimestamp: int)
    ensures var (s', o) := SubmitStep(h, s, tx, blockTimestamp);
      && (o.Failed? ==> s' == s)
      && (!ValidChain(h, s.chain) ==> o == Failed(ChainCorrupted))
      && (ValidChain(h, s.chain) && !(IsValidPhone(tx.fromAddress) && IsValidPhone(tx.toAddress))
          ==> o == Failed(InvalidPhone))
      && (ValidChain(h, s.chain) && IsValidPhone(tx.fromAddress) && IsValidPhone(tx.toAddress)
          && (Absent(s.accounts, tx.fromAddress) || Balance(s.accounts, tx.fromAddress) < tx.amount)
          ==> o == Failed(InsufficientFunds))
      && (o.Failed? <==> !Admissible(h, s, tx))
      && (o.Success? <==> Admissible(h, s, tx) && !Absent(s.accounts, tx.toAddress))
      && (o.Threw? <==> Admissible(h, s, tx) && Absent(s.accounts, tx.toAddress))
  {
  }

  /**
   * What a submission that passes every check leaves, written as the
   * in-place debit of entry i, then either the raise or the credit of
   * entry j and the new block.
   */
  lemma SubmitAt(h: Hashing, s: State, tx: Transaction, blockTimestamp: int, i: nat, toAccount: Option<nat>)
    requires Admissible(h, s, tx)
    requires Find(s.accounts, tx.fromAddress) == Some(i) && Find(s.accounts, tx.toAddress) == toAccount
    ensures toAccount.None? ==>
      SubmitStep(h, s, tx, blockTimestamp) == (State(s.chain, Credit(s.accounts, i, -tx.amount)), Threw)
    ensures toAccount.Some? ==>
      var b := SealedBlock(h, TailHash(s.chain), blockTimestamp, tx);
      SubmitStep(h, s, tx, blockTimestamp)
      == (State(s.chain + [b], Credit(Credit(s.accounts, i, -tx.amount), toAccount.value, tx.amount)), Success(b.hash))
  {
    assert Rejection(h, s, tx).None?;
    if toAccount.Some? {
      assert Settle(s.accounts, tx) == Credit(Credit(s.accounts, i, -tx.amount), toAccount.value, tx.amount);
    } else {
      assert Deposit(s.accounts, tx.fromAddress, -tx.amount) == Credit(s.accounts, i, -tx.amount);
    }
  }

  /**
   * A submission that passes every check but names a recipient with no
   * entry raises after the debit: the chain is unchanged, and the sender
   * alone has lost the amount, so the total drops by it.
   */
  lemma SubmitThrowsAfterDebit(h: Hashing, s: State, tx: Transaction, blockTimestamp: int)
    requires Admissible(h, s, tx) && Absent(s.accounts, tx.toAddress)
    ensures var (s', o) := SubmitStep(h, s, tx, blockTimestamp);
      && o == Threw && s'.chain == s.chain
      && Total(s'.accounts) == Total(s.accounts) - tx.amount
      && forall a :: Balance(s'.accounts, a) == Balance(s.accounts, a) - (if a == tx.fromAddress then tx.amount else 0)
  {
    var i := Find(s.accounts, tx.fromAddress).value;
    SubmitAt(h, s, tx, blockTimestamp, i, None);
    CreditAddress(s.accounts, i, -tx.amount, tx.fromAddress, SubmitStep(h, s, tx, blockTimestamp).0.accounts);
  }

  /** Settling keeps every address in place and the total balance unchanged. */
  lemma SettleConserves(accounts: seq<Account>, tx: Transaction)
    requires Find(accounts, tx.fromAddress).Some? && Find(accounts, tx.toAddress).Some?
    ensures SameAddresses(Settle(accounts, tx), accounts)
    ensures Total(Settle(accounts, tx)) == Total(accounts)
  {
    var i, j := Find(accounts, tx.fromAddress).value, Find(accounts, tx.toAddress).value;
    MoveConserves(accounts, i, j, tx.amount);
  }

  /**
   * Settling moves `amount` from the sender's balance to the recipient's
   * and leaves every other balance as it was.
   */
  lemma SettleBalance(accounts: seq<Account>, tx: Transaction, a: string)
    requires Find(accounts, tx.fromAddress).Some? && Find(accounts, tx.toAddress).Some?
    ensures Balance(Settle(accounts, tx), a) == Balance(accounts, a)
              - (if a == tx.fromAddress then tx.amount else 0) + (if a == tx.toAddress then tx.amount else 0)
  {
    var i, j := Find(accounts, tx.fromAddress).value, Find(accounts, tx.toAddress).value;
    var settled := Credit(Credit(accounts, i, -tx.amount), j, tx.amount);
    assert Settle(accounts, tx) == settled;
    MoveBalance(accounts, i, j, tx.amount, tx.fromAddress, tx.toAddress, a);
    assert Balance(settled, a) == Balance(accounts, a)
             - (if a == tx.fromAddress then tx.amount else 0) + (if a == tx.toAddress then tx.amount else 0);
  }

  /** A transaction from an account to itself leaves the table exactly as it was. */
  lemma SelfSettleUnchanged(accounts: seq<Account>, tx: Transaction)
    requires Find(accounts, tx.toAddress).Some? && tx.fromAddress == tx.toAddress
    ensures Settle(accounts, tx) == accounts
  {
    CreditCancel(accounts, Find(accounts, tx.fromAddress).value, tx.amount);
  }

  /**
   * Settling keeps addresses unique, and when the sender could cover a
   * non-negative amount no balance goes negative.
   */
  lemma SettleKeepsInvariants(accounts: seq<Account>, tx: Transaction)
    requires Find(accounts, tx.fromAddress).Some? && Find(accounts, tx.toAddress).Some?
    ensures Unique(accounts) ==> Unique(Settle(accounts, tx))
    ensures NonNegative(accounts) && 0 <= tx.amount <= Balance(accounts, tx.fromAddress)
            ==> NonNegative(Settle(accounts, tx))
  {
    var i, j := Find(accounts, tx.fromAddress).value, Find(accounts, tx.toAddress).value;
    var debited := Credit(accounts, i, -tx.amount);
    CreditKeepsInvariants(accounts, i, -tx.amount);
    CreditKeepsInvariants(debited, j, tx.amount);
    if NonNegative(accounts) && 0 <= tx.amount <= Balance(accounts, tx.fromAddress) {
      assert Balance(accounts, tx.fromAddress) == accounts[i].balance;
      assert NonNegative(debited);
      assert debited[j].balance >= 0;
    }
  }

  /**
   * A committed transaction appends exactly one block, sealed, linked to the
   * old tail and holding only the transaction, and returns that block's
   * hash; a valid chain stays valid.
   */
  lemma CommitRecords(h: Hashing, s: State, tx: Transaction, blockTimestamp: int)
    requires Find(s.accounts, tx.fromAddress).Some? && Find(s.accounts, tx.toAddress).Some?
    ensures var (s', o) := Commit(h, s, tx, blockTimestamp);
      && |s'.chain| == |s.chain| + 1 && s'.chain[..|s.chain|] == s.chain
      && var b := s'.chain[|s.chain|];
      && b.previousHash == TailHash(s.chain) && b.transactions == [tx] && b.timestamp == blockTimestamp
      && Sealed(h, b) && o == Success(b.hash) && TailHash(s'.chain) == b.hash
      && s'.accounts == Settle(s.accounts, tx)
      && (ValidChain(h, s.chain) ==> ValidChain(h, s'.chain))
  {
    var s' := Commit(h, s, tx, blockTimestamp).0;
    assert s'.chain[..|s.chain|] == s.chain;
    if ValidChain(h, s.chain) {
      AppendKeepsValid(h, s.chain, SealedBlock(h, TailHash(s.chain), blockTimestamp, tx));
    }
  }

  /**
   * Whatever the outcome, a submission conserves the total balance and keeps
   * the invariants: a valid chain stays valid (a success appends a block
   * linked to the old tail), addresses stay unique, and with a non-negative
   * amount no balance goes negative.
   */
  lemma SubmitKeepsInvariants(h: Hashing, s: State, tx: Transaction, blockTimestamp: int)
    requires Find(s.accounts, tx.toAddress).Some?
    ensures var (s', o) := SubmitStep(h, s, tx, blockTimestamp);
      && Total(s'.accounts) == Total(s.accounts)
      && |s.chain| <= |s'.chain| && s'.chain[..|s.chain|] == s.chain
      && (o.Success? ==> TailHash(s'.chain) == o.hash && s'.chain[|s.chain|].previousHash == TailHash(s.chain))
      && (ValidChain(h, s.chain) ==> ValidChain(h, s'.chain))
      && (Unique(s.accounts) ==> Unique(s'.accounts))
      && (NonNegative(s.accounts) && tx.amount >= 0 ==> NonNegative(s'.accounts))
  {
    if Rejection(h, s, tx).None? {
      CommitRecords(h, s, tx, blockTimestamp);
      SettleConserves(s.accounts, tx);
      SettleKeepsInvariants(s.accounts, tx);
    } else {
      assert s.chain[..|s.chain|] == s.chain;
    }
  }

  /** A transfer naming a missing account is refused with no change. */
  lemma TransferNeedsBothAccounts(h: Hashing, s: State, fromPhone: string, toPhone: string, amount: int,
                                  txTimestamp: int, blockTimestamp: int)
    requires Absent(s.accounts, fromPhone) || Absent(s.accounts, toPhone)
    ensures TransferStep(h, s, fromPhone, toPhone, amount, txTimestamp, blockTimestamp) == (s, Failed(AccountMissing))
  {
  }

  /**
   * On any state, healthy or not, and for any amount: a transfer conserves
   * the total, only ever extends the chain, never reaches the throwing path
   * of `addTransaction`, and changes nothing when it fails.
   */
  lemma TransferConserves(h: Hashing, s: State, fromPhone: string, toPhone: string, amount: int,
                          txTimestamp: int, blockTimestamp: int)
    ensures var (s', o) := TransferStep(h, s, fromPhone, toPhone, amount, txTimestamp, blockTimestamp);
      && Total(s'.accounts) == Total(s.accounts)
      && |s.chain| <= |s'.chain| && s'.chain[..|s.chain|] == s.chain
      && !o.Threw? && (o.Failed? ==> s' == s)
  {
    if Find(s.accounts, fromPhone).Some? && Find(s.accounts, toPhone).Some? {
      var tx := NewTransaction(h, fromPhone, toPhone, amount, Transfer, txTimestamp);
      SubmitKeepsInvariants(h, s, tx, blockTimestamp);
      SubmitRejects(h, s, tx, blockTimestamp);
    } else {
      assert s.chain[..|s.chain|] == s.chain;
    }
  }

  /**
   * A transfer keeps the invariants (for a non-negative amount), conserves
   * the total, only ever extends the chain, and never reaches the throwing
   * path of `addTransaction`.
   */
  lemma TransferKeepsInvariants(h: Hashing, s: State, fromPhone: string, toPhone: string, amount: int,
                                txTimestamp: int, blockTimestamp: int)
    requires Healthy(h, s) && amount >= 0
    ensures var (s', o) := TransferStep(h, s, fromPhone, toPhone, amount, txTimestamp, blockTimestamp);
      && Healthy(h, s') && Total(s'.accounts) == Total(s.accounts)
      && |s.chain| <= |s'.chain| && s'.chain[..|s.chain|] == s.chain
      && !o.Threw? && (o.Failed? ==> s' == s)
  {
    if Find(s.accounts, fromPhone).Some? && Find(s.accounts, toPhone).Some? {
      var tx := NewTransaction(h, fromPhone, toPhone, amount, Transfer, txTimestamp);
      SubmitKeepsInvariants(h, s, tx, blockTimestamp);
    } else {
      assert s.chain[..|s.chain|] == s.chain;
    }
  }

  /**
   * Funding an existing account raises its balance, and the total, by the
   * amount, touches nothing else, not even the chain, and answers with the
   * funded message; funding a missing account changes nothing. Unique addresses are kept, and so are
   * non-negative balances when the amount is not negative.
   */
  lemma FundEffect(s: State, phone: string, amount: int)
    ensures var (s', message) := FundStep(s, phone, amount);
      && s'.chain == s.chain
      && (Absent(s.accounts, phone) ==> s' == s && message == AccountNotFoundMessage)
      && (!Absent(s.accounts, phone) ==>
            && message == FundedMessage(phone, amount)
            && Total(s'.accounts) == Total(s.accounts) + amount
            && SameAddresses(s'.accounts, s.accounts)
            && forall a :: Balance(s'.accounts, a) == Balance(s.accounts, a) + (if a == phone then amount else 0))
      && (Unique(s.accounts) ==> Unique(s'.accounts))
      && (NonNegative(s.accounts) && amount >= 0 ==> NonNegative(s'.accounts))
  {
    var (s', message) := FundStep(s, phone, amount);
    if !Absent(s.accounts, phone) {
      DepositTotal(s.accounts, phone, amount);
      forall a ensures Balance(s'.accounts, a) == Balance(s.accounts, a) + (if a == phone then amount else 0) {
        DepositBalance(s.accounts, phone, amount, a);
      }
      if Unique(s.accounts) {
        UniqueSameAddresses(s.accounts, s'.accounts);
      }
      if NonNegative(s.accounts) && amount >= 0 {
        DepositNonNegative(s.accounts, phone, amount);
      }
    }
  }

  /**
   * Opening an account never touches the chain or the total; an existing
   * address is refused with no change, a new one gets a zero balance and
   * every other balance stays.
   */
  lemma CreateEffect(s: State, address: string)
    ensures var (s', message) := CreateStep(s, address);
      && s'.chain == s.chain
      && Total(s'.accounts) == Total(s.accounts)
      && !Absent(s'.accounts, address)
      && (!Absent(s.accounts, address) ==> s' == s && message == AccountExistsMessage)
      && (Absent(s.accounts, address) ==>
            && s'.accounts == s.accounts + [Account(address, 0)]
            && Balance(s'.accounts, address) == 0
            && forall a :: a != address ==> Balance(s'.accounts, a) == Balance(s.accounts, a))
  {
    var (s', message) := CreateStep(s, address);
    if Absent(s.accounts, address) {
      TotalAppend(s.accounts, Account(address, 0));
      assert IsFirst(s'.accounts, address, |s.accounts|);
      forall a | a != address ensures Balance(s'.accounts, a) == Balance(s.accounts, a) {
        match Find(s.accounts, a)
        case None =>
          assert Absent(s'.accounts, a);
        case Some(i) =>
          assert IsFirst(s'.accounts, a, i);
      }
    }
  }

  /** Opening an account keeps the addresses unique. */
  lemma CreateKeepsUnique(s: State, address: string)
    requires Unique(s.accounts)
    ensures Unique(CreateStep(s, address).0.accounts)
  {
    var accounts := CreateStep(s, address).0.accounts;
    if Absent(s.accounts, address) {
      forall i, j | 0 <= i < j < |accounts| ensures accounts[i].fromAddress != accounts[j].fromAddress {
        if j == |s.accounts| {
          assert accounts[i] == s.accounts[i];
        }
      }
    }
  }

  /** Opening the same address twice: the second attempt is refused and changes nothing. */
  lemma CreateTwiceRefused(s: State, address: string)
    ensures var s1 := CreateStep(s, address).0;
      CreateStep(s1, address) == (s1, AccountExistsMessage)
  {
    CreateEffect(s, address);
  }

  /**
   * A transfer between two existing accounts with well-formed identifiers,
   * on a valid chain, that the sender can cover, is committed.
   */
  lemma TransferCommits(h: Hashing, s: State, fromPhone: string, toPhone: string, amount: int,
                        txTimestamp: int, blockTimestamp: int)
    requires ValidChain(h, s.chain) && IsValidPhone(fromPhone) && IsValidPhone(toPhone)
    requires Find(s.accounts, fromPhone).Some? && Find(s.accounts, toPhone).Some?
    requires amount <= Balance(s.accounts, fromPhone)
    ensures TransferStep(h, s, fromPhone, toPhone, amount, txTimestamp, blockTimestamp)
            == Commit(h, s, NewTransaction(h, fromPhone, toPhone, amount, Transfer, txTimestamp), blockTimestamp)
  {
  }

  /**
   * Genesis, two accounts opened and R$100.00 funded to the first: the
   * chain is still the genesis block alone, the first balance is R$100.00
   * and the second R$0.00.
   */
  lemma FundedScenario(h: Hashing, t0: int, alice: string, bob: string)
    requires alice != bob
    ensures
      var s1 := CreateStep(Genesis(h, t0), alice).0;
      var s2 := CreateStep(s1, bob).0;
      var s3 := FundStep(s2, alice, 10000).0;
      && Healthy(h, s3) && |s3.chain| == 1
      && Find(s3.accounts, alice).Some? && Find(s3.accounts, bob).Some?
      && Balance(s3.accounts, alice) == 10000 && Balance(s3.accounts, bob) == 0
  {
    var s0 := Genesis(h, t0);
    GenesisHealthy(h, t0);
    var s1 := CreateStep(s0, alice).0;
    CreateEffect(s0, alice);
    CreateKeepsUnique(s0, alice);
    var s2 := CreateStep(s1, bob).0;
    CreateEffect(s1, bob);
    CreateKeepsUnique(s1, bob);
    FundEffect(s2, alice, 10000);
  }

  /**
   * Genesis, two accounts with well-formed identifiers opened, R$100.00
   * funded to the first, R$40.00 transferred to the second: the transfer
   * succeeds, the balances are R$60.00 and R$40.00, there is one block on
   * top of genesis (funding records none), and the chain is intact.
   */
  lemma FundThenTransferScenario(h: Hashing, alice: string, bob: string, t0: int, t1: int, t2: int)
    requires IsValidPhone(alice) && IsValidPhone(bob) && alice != bob
    ensures
      var s1 := CreateStep(Genesis(h, t0), alice).0;
      var s2 := CreateStep(s1, bob).0;
      var s3 := FundStep(s2, alice, 10000).0;
      var (s4, o) := TransferStep(h, s3, alice, bob, 4000, t1, t2);
      && o.Success?
      && Balance(s4.accounts, alice) == 6000 && Balance(s4.accounts, bob) == 4000
      && |s4.chain| == 2 && CheckChain(h, s4.chain) == Intact
  {
    var s1 := CreateStep(Genesis(h, t0), alice).0;
    var s2 := CreateStep(s1, bob).0;
    var s3 := FundStep(s2, alice, 10000).0;
    FundedScenario(h, t0, alice, bob);
    var tx := NewTransaction(h, alice, bob, 4000, Transfer, t1);
    TransferCommits(h, s3, alice, bob, 4000, t1, t2);
    CommitRecords(h, s3, tx, t2);
    SettleBalance(s3.accounts, tx, alice);
    SettleBalance(s3.accounts, tx, bob);
    var s4 := Commit(h, s3, tx, t2).0;
    CheckChainSound(h, s4.chain);
  }
}
