# ZPayX wallet ledger in Dafny

This project models the in-memory ledger of the ZPayX wallet, which is the
`Blockchain` class of `wallet_blockchain.js` together with the `Block` and
`Transaction` records it builds. The ledger keeps two things:

- a chain of blocks, each holding the hash of the block before it;
- an account table of `{fromAddress, balance}` entries. The source calls it
  `pendingTransactions` and looks entries up with `find`, which returns the
  first entry with the address.

The operations are:

- `createAccount`
- `getBalance`
- `addFunds`
- `transferFunds`, which calls `addTransaction`
- the integrity walk `isChainValid` / `validateBlockchain`
- the identifier check `isValidPhone`

The project is organised in these modules:

- `Text` (`text.dfy`): writes numbers in decimal for the messages.
- `PhoneFormat` (`phone.dfy`): the `isValidPhone` regular expression. It is
  written as a sequence of character-class pieces with repetition bounds,
  matched by backtracking.
- `Blocks` (`blocks.dfy`): transactions, blocks, `calculateHash`, and the
  integrity walk as a recursive function with its soundness lemmas.
- `Accounts` (`accounts.dfy`): the account table, covering `find`, the
  balance, the total, and crediting one entry in place.
- `Ledger` (`ledger.dfy`): each operation as a function from the state before
  to the state after and the result, with the properties of those functions.
- `Wallet` (`wallet.dfy`): the class `Blockchain`, with the chain and the
  table as fields that its methods update in place.
  - Each method's postcondition says that the new fields and the result are
    exactly what the matching `Ledger` function gives for the old fields.
  - So every `Ledger` lemma holds of the object.
  - `IsChainValid` is the source's loop, with the recursive walk as its
    invariant.

Modelling choices:

- Amounts are whole centavos.
- Timestamps are parameters.
- SHA-256 over JSON is replaced by a `Hashing` value that holds two
  deterministic but otherwise unknown digest functions. Every property holds
  for every such pair, and nothing assumes the digests are collision free.

Behaviours of the code worth knowing, all kept in the model:

- `addFunds` records no block and checks neither the chain nor the
  identifier.
- `createAccount` checks nothing and records no block.
- Only transfers add blocks: opening two accounts, funding one and
  transferring between them leaves two blocks, the genesis block and the
  transfer's.
- The expression accepts only 11 to 15 digits, so an identifier such as
  `+1 555 0100` (8 digits) is refused.
- `addTransaction` reads the recipient's entry without checking that it
  exists. When the entry is missing, the sender has already been debited and
  the credit raises a TypeError. The model keeps this path as the outcome
  `Threw`, with the debit left in place.

## Model

| member | source | states |
|---|---|---|
| PhoneFormat.IsValidPhone | wallet_blockchain.js:131-134 | `isValidPhone` is the anchored match of the whole string against the pattern's pieces; every identifier it accepts holds between 11 and 15 digits |
| PhoneFormat.AcceptsDigitGroups | wallet_blockchain.js:132 | any digit groups of lengths 1-3, 2-3, 4-5 and 4, written one after the other, are accepted |
| PhoneFormat.AcceptsSample | wallet_blockchain.js:132 | "556784229414" is accepted |
| PhoneFormat.RejectsLetters | wallet_blockchain.js:132 | "abc" is refused |
| PhoneFormat.RejectsEightDigits | wallet_blockchain.js:132 | "+1 555 0100" is refused, because it has only 8 digits |
| Text.NatToString | wallet_blockchain.js:52 | the block number in a message is a non-empty string of decimal digits with no leading zero |
| Text.NatToStringValue | wallet_blockchain.js:52 | the digits written for a block number read back as that number |
| Text.CentsToStringValue | wallet_blockchain.js:107 | the amount in the funding message is a '-' exactly for a negative amount, the reais without leading zeros, a '.', and exactly two digits of centavos, and it reads back as the amount |
| Blocks.NewTransaction | wallet_blockchain.js:8-19 | a new transaction carries the given fields, and its stored hash is the digest of those fields |
| Blocks.HashIgnoresStoredHash | wallet_blockchain.js:30-32 | the block digest covers the transactions, the previous hash and the timestamp but not the stored hash, so recomputing it seals any block and changes nothing else |
| Blocks.TailHashAppend | wallet_blockchain.js:90 | a new block links to the last block's hash, which is that of the block appended last, or to "0" on an empty chain |
| Blocks.NewBlock | wallet_blockchain.js:23-28 | a new block has no transactions, links to the given hash, has the given timestamp and carries the hash of its own contents |
| Blocks.SealedBlock | wallet_blockchain.js:90-93 | the block recorded for a transaction links to the given hash, holds exactly that transaction, has the given timestamp and carries the hash of its final contents |
| Blocks.CheckFrom | wallet_blockchain.js:47-58 | a block the walk reports lies within the chain, no earlier than the block just before the one where the walk started |
| Blocks.CheckChainSound | wallet_blockchain.js:46-60 | the walk reports the chain intact exactly when every block after the first carries the hash of its own contents and links to its predecessor |
| Blocks.FirstFailureWins | wallet_blockchain.js:46-60 | at the first bad block k, the walk reports k if k's own hash is wrong, otherwise k - 1; later blocks do not matter |
| Blocks.ShortChainIntact | wallet_blockchain.js:47 | a chain of at most one block is always reported intact |
| Blocks.GenesisContentUnchecked | wallet_blockchain.js:47-51 | block 0 is checked only through its stored hash: changing its contents while keeping that hash does not change the verdict |
| Blocks.AppendKeepsValid | wallet_blockchain.js:90-94 | appending a block that carries its own hash and links to the old tail keeps a valid chain valid |
| Accounts.Find | wallet_blockchain.js:76 | `find` returns nothing exactly when no entry has the address, and otherwise the first entry with it |
| Accounts.FirstIsFind | wallet_blockchain.js:76 | the first entry with an address is the one `find` returns |
| Accounts.FindIdentifies | wallet_blockchain.js:76-77 | two found addresses share an entry only when they are the same address |
| Accounts.Balance | wallet_blockchain.js:126-129 | the balance is that of the first entry with the address, or 0 when there is none |
| Accounts.CreditKeepsLookups | wallet_blockchain.js:87-88 | changing a balance in place keeps every address, so every lookup, and raises the total by the amount |
| Accounts.CreditBalance | wallet_blockchain.js:87-88 | crediting an entry changes only the balance of the address whose first entry it is |
| Accounts.CreditAddress | wallet_blockchain.js:87 | crediting an address's entry changes that balance, and the total, by the amount, and no other balance |
| Accounts.CreditKeepsInvariants | wallet_blockchain.js:87-88 | crediting an entry keeps addresses unique, and keeps balances non-negative when the entry's new balance is |
| Accounts.MoveConserves | wallet_blockchain.js:87-88 | debiting one entry and crediting another by the same amount keeps every address and the total |
| Accounts.MoveBalance | wallet_blockchain.js:87-88 | that move lowers the sender's balance and raises the recipient's by the amount, and leaves all other balances alone |
| Accounts.CreditCancel | wallet_blockchain.js:87-88 | taking an amount out of an entry and putting it back restores the table |
| Accounts.DepositBalance | wallet_blockchain.js:104 | funding an existing address changes its balance by the amount and no other balance |
| Accounts.DepositTotal | wallet_blockchain.js:104 | funding an existing address raises the total by the amount |
| Accounts.DepositNonNegative | wallet_blockchain.js:104 | funding that leaves its own balance non-negative keeps every balance non-negative |
| Accounts.TotalAppend | wallet_blockchain.js:175-180 | appending an entry raises the total by its balance |
| Ledger.OutcomeMessageIdentifies | wallet_blockchain.js:71-124 | the replies of `addTransaction` and `transferFunds` tell outcomes apart: two replies are equal exactly when both are successes or both are the same failure |
| Ledger.GenesisHealthy | wallet_blockchain.js:141 | the genesis state has a valid chain, unique addresses and no negative balance, and its chain is reported intact |
| Ledger.SubmitRejects | wallet_blockchain.js:71-85 | checks in order: a corrupt chain, then a malformed identifier, then a missing or short sender; each refusal leaves the state unchanged; a refusal happens exactly when some check fails, success exactly when none fails and the recipient exists, and the raise exactly when none fails and the recipient is missing |
| Ledger.SubmitAt | wallet_blockchain.js:76-98 | once every check passes: without a recipient entry, only the sender's entry is debited and the call raises; with one, the sender's entry is debited, the recipient's credited, and one new block is appended whose hash is returned |
| Ledger.SubmitThrowsAfterDebit | wallet_blockchain.js:87-88 | a missing recipient raises after the debit: the chain is unchanged, the total drops by the amount, and only the sender's balance changes |
| Ledger.SettleConserves | wallet_blockchain.js:87-88 | a settled transfer keeps every address and the total balance |
| Ledger.SettleBalance | wallet_blockchain.js:87-88 | a settled transfer debits the sender, credits the recipient, and leaves every other balance unchanged |
| Ledger.SelfSettleUnchanged | wallet_blockchain.js:87-88 | a transfer from an account to itself leaves the table exactly as it was |
| Ledger.SettleKeepsInvariants | wallet_blockchain.js:83-88 | a settled transfer keeps addresses unique; with a non-negative amount the sender can cover, no balance goes negative |
| Ledger.CommitRecords | wallet_blockchain.js:87-98 | a commit appends exactly one block and keeps the old blocks; the block links to the old tail (or "0"), holds only the transaction and carries its own hash; the new tail hash is returned; the table is the settled one; a valid chain stays valid |
| Ledger.SubmitKeepsInvariants | wallet_blockchain.js:71-99 | when the recipient exists, any outcome keeps the total, only extends the chain, returns the new tail's hash on success, and keeps chain validity, unique addresses and (for a non-negative amount) non-negative balances |
| Ledger.TransferNeedsBothAccounts | wallet_blockchain.js:113-118 | a transfer naming a missing account is refused and changes nothing |
| Ledger.TransferCommits | wallet_blockchain.js:112-124 | on a valid chain, between two existing accounts with well-formed identifiers and with enough funds, a transfer commits a "transfer" transaction |
| Ledger.TransferConserves | wallet_blockchain.js:112-124 | on any state and for any amount, a transfer conserves the total, only extends the chain, never raises, and changes nothing when it fails |
| Ledger.TransferKeepsInvariants | wallet_blockchain.js:112-124 | a transfer with a non-negative amount keeps all the invariants and the total, only extends the chain, never raises, and changes nothing when it fails |
| Ledger.FundEffect | wallet_blockchain.js:101-110 | funding a missing account changes nothing and answers "Conta não encontrada."; funding an existing one raises only its balance and the total by the amount and answers "Saldo de … aumentado em R$…"; the chain is never touched; unique addresses and (for a non-negative amount) non-negative balances are kept |
| Ledger.CreateEffect | wallet_blockchain.js:169-184 | opening an account leaves the chain and the total unchanged. An existing address is refused with no change. A new one is appended with balance 0, and every other balance stays |
| Ledger.CreateKeepsUnique | wallet_blockchain.js:169-180 | opening an account keeps addresses unique |
| Ledger.CreateTwiceRefused | wallet_blockchain.js:170-173 | opening the same address twice refuses the second attempt with no change |
| Ledger.FundedScenario | wallet_blockchain.js:101-110 | from genesis, opening two accounts and funding the first with R$100.00 leaves balances of R$100.00 and R$0.00 and the genesis block alone |
| Ledger.FundThenTransferScenario | wallet_blockchain.js:112-124 | after that, a transfer of R$40.00 between well-formed identifiers succeeds with balances of R$60.00 and R$40.00; the chain then has two blocks and is reported intact |
| Wallet.Blockchain.constructor | wallet_blockchain.js:139-142 | a missing or empty store starts with the genesis block and no accounts |
| Wallet.Blockchain.Load | wallet_blockchain.js:144-152 | a stored chain and table are taken as they are, unchecked |
| Wallet.Blockchain.IsChainValid | wallet_blockchain.js:46-60 | the loop's answer is the recursive walk's verdict: intact exactly when the chain is valid, with the message naming the reported block |
| Wallet.Blockchain.ValidateBlockchain | wallet_blockchain.js:62-69 | true exactly when the chain is valid |
| Wallet.Blockchain.AddTransaction | wallet_blockchain.js:71-99 | the fields and the outcome after the call are those of the submission step applied to the fields before it |
| Wallet.Blockchain.AddFunds | wallet_blockchain.js:101-110 | the fields and the message after the call are those of the funding step |
| Wallet.Blockchain.TransferFunds | wallet_blockchain.js:112-124 | the fields and the outcome after the call are those of the transfer step, and the reply is the outcome's message |
| Wallet.Blockchain.GetBalance | wallet_blockchain.js:126-129 | the balance of the first entry with the address, or 0 when there is none |
| Wallet.Blockchain.CreateAccount | wallet_blockchain.js:169-184 | the fields and the message after the call are those of the account-opening step |

## Left out

- `loadDatabase` / `saveDatabase` (`wallet_blockchain.js:136-167`) read and
  write a JSON file. The model covers:
  - the two genesis cases, as the unnamed constructor;
  - loading, as `Load`, which takes an arbitrary chain and table.

  Parsing, writing and I/O failures are not modelled. Because `addTransaction`
  saves only at the end (line 96), the debit left by the raising path stays
  in memory only; the model has no store to show this.
- SHA-256 and `JSON.stringify` (`wallet_blockchain.js:18, 31`) are foreign
  code. They become the two functions of `Hashing`, and no collision
  property is stated.
- `Date` and `Date.now()` are passed in as timestamps.
- JavaScript floating-point amounts are modelled as integer centavos.
  `toFixed(2)` is modelled as `CentsToString`, and rounding is not modelled.
- `console.log` in `validateBlockchain` and `loadDatabase` is left out.
- `Block.addTransaction` (`wallet_blockchain.js:34-36`) pushes onto the block
  and the hash is then recomputed. This is modelled on values
  (`WithTransaction`, `Rehash`), because the block is a fresh local that
  nothing else refers to.
- The TypeError that `addTransaction` raises when the recipient has no entry
  is the outcome `Threw`, not an exception.
- Ledger.SettleKeepsInvariants: no balance goes negative only when the amount
  is not negative. The ledger itself accepts any amount; only its callers in
  `whatsapp_integration.js` (lines 64 and 79) refuse amounts that are not
  positive.
- Ledger.SubmitKeepsInvariants: stated only for a recipient that exists. The
  other case is `SubmitThrowsAfterDebit`, where the total drops.
- `ZPayXapp.py` (a Streamlit interface and a fraud model) and the WhatsApp
  glue in `whatsapp_integration.js` are not part of this model.
