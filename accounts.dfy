/**
 * The account table. The wallet keeps it as an array of
 * `{fromAddress, balance}` entries (under the name `pendingTransactions`)
 * and looks entries up with `find`, which returns the FIRST entry with the
 * address. A table read back from storage is not checked, so the model
 * allows repeated addresses; `Unique` is an invariant the operations keep.
 * Balances are integers (centavos).
 */
module Accounts {

  datatype Option<T> = None | Some(value: T)

  datatype Account = Account(fromAddress: string, balance: int)

  /** No entry has the address. */
  predicate Absent(accounts: seq<Account>, address: string) {
    forall j :: 0 <= j < |accounts| ==> accounts[j].fromAddress != address
  }

  /** Entry j is the first entry with the address. */
  predicate IsFirst(accounts: seq<Account>, address: string, j: nat) {
    j < |accounts| && accounts[j].fromAddress == address
    && forall k :: 0 <= k < j ==> accounts[k].fromAddress != address
  }

  /** `find`: the index of the first entry with the address, if any. */
  function Find(accounts: seq<Account>, address: string): (r: Option<nat>)
    ensures r.None? <==> Absent(accounts, address)
    ensures r.Some? ==> IsFirst(accounts, address, r.value)
  {
    FindFrom(accounts, address, 0)
  }

  /** The scan of `find` from entry `start` on. */
  function FindFrom(accounts: seq<Account>, address: string, start: nat): (r: Option<nat>)
    requires start <= |accounts|
    ensures r.None? <==> forall j :: start <= j < |accounts| ==> accounts[j].fromAddress != address
    ensures r.Some? ==> start <= r.value < |accounts| && accounts[r.value].fromAddress == address
    ensures r.Some? ==> forall k :: start <= k < r.value ==> accounts[k].fromAddress != address
    decreases |accounts| - start
  {
    if start == |accounts| then None
    else if accounts[start].fromAddress == address then Some(start)
    else FindFrom(accounts, address, start + 1)
  }

  /** There is at most one first entry, so `Find` is determined by IsFirst. */
  lemma FirstIsFind(accounts: seq<Account>, address: string, j: nat)
    requires IsFirst(accounts, address, j)
    ensures Find(accounts, address) == Some(j)
  {
  }

  /** Two addresses that are found share their entry exactly when they are the same address. */
  lemma FindIdentifies(accounts: seq<Account>, address: string, other: string)
    requires Find(accounts, address).Some?
    ensures Find(accounts, other) == Find(accounts, address) <==> other == address
  {
  }

  /** `getBalance`: the balance of the first entry with the address, 0 when there is none. */
  function Balance(accounts: seq<Account>, address: string): (b: int)
    ensures Absent(accounts, address) ==> b == 0
    ensures forall j: nat :: IsFirst(accounts, address, j) ==> b == accounts[j].balance
  {
    match Find(accounts, address)
    case None => 0
    case Some(i) => accounts[i].balance
  }

  /** The sum of all balances. */
  function Total(accounts: seq<Account>): int {
    SumFrom(accounts, 0)
  }

  /** The sum of the balances of the entries from `start` on. */
  function SumFrom(accounts: seq<Account>, start: nat): int
    requires start <= |accounts|
    decreases |accounts| - start
  {
    if start == |accounts| then 0 else accounts[start].balance + SumFrom(accounts, start + 1)
  }

  /** No address appears twice. */
  predicate Unique(accounts: seq<Account>) {
    forall i, j :: 0 <= i < j < |accounts| ==> accounts[i].fromAddress != accounts[j].fromAddress
  }

  /** No balance is negative. */
  predicate NonNegative(accounts: seq<Account>) {
    forall j :: 0 <= j < |accounts| ==> accounts[j].balance >= 0
  }

  /** The two tables list the same addresses in the same order. */
  predicate SameAddresses(a: seq<Account>, b: seq<Account>) {
    |a| == |b| && forall j :: 0 <= j < |a| ==> a[j].fromAddress == b[j].fromAddress
  }

  /** `balance += amount` on entry i, every other entry as it was. */
  function Credit(accounts: seq<Account>, i: nat, amount: int): seq<Account>
    requires i < |accounts|
  {
    accounts[i := accounts[i].(balance := accounts[i].balance + amount)]
  }

  /**
   * `balance += amount` on the entry `find` returns for the address; the
   * table is unchanged when there is none.
   */
  function Deposit(accounts: seq<Account>, address: string, amount: int): seq<Account> {
    match Find(accounts, address)
    case None => accounts
    case Some(i) => Credit(accounts, i, amount)
  }

  /** Lookups see only the addresses: tables with the same addresses find the same entries. */
  lemma FindSameAddresses(a: seq<Account>, b: seq<Account>, address: string)
    requires SameAddresses(a, b)
    ensures Find(a, address) == Find(b, address)
  {
    match Find(a, address)
    case None =>
    case Some(i) => FirstIsFind(b, address, i);
  }

  /** Unique depends only on the addresses. */
  lemma UniqueSameAddresses(a: seq<Account>, b: seq<Account>)
    requires SameAddresses(a, b) && Unique(a)
    ensures Unique(b)
  {
    forall i, j | 0 <= i < j < |b| ensures b[i].fromAddress != b[j].fromAddress {
      assert a[i].fromAddress != a[j].fromAddress;
    }
  }

  lemma {:induction false} SumFromUpdate(accounts: seq<Account>, i: nat, a: Account, start: nat)
    requires start <= |accounts| && i < |accounts|
    ensures SumFrom(accounts[i := a], start)
            == SumFrom(accounts, start) - (if start <= i then accounts[i].balance - a.balance else 0)
    decreases |accounts| - start
  {
    if start < |accounts| {
      SumFromUpdate(accounts, i, a, start + 1);
    }
  }

  /**
   * Crediting an entry keeps every address, so every lookup, and raises
   * the total by the amount.
   */
  lemma CreditKeepsLookups(accounts: seq<Account>, i: nat, amount: int)
    requires i < |accounts|
    ensures SameAddresses(Credit(accounts, i, amount), accounts)
    ensures forall x :: Find(Credit(accounts, i, amount), x) == Find(accounts, x)
    ensures Total(Credit(accounts, i, amount)) == Total(accounts) + amount
  {
    var r := Credit(accounts, i, amount);
    forall x ensures Find(r, x) == Find(accounts, x) {
      FindSameAddresses(accounts, r, x);
    }
    SumFromUpdate(accounts, i, r[i], 0);
  }

  /** Crediting entry i changes only the balance of the address whose first entry is i. */
  lemma CreditBalance(accounts: seq<Account>, i: nat, amount: int, x: string)
    requires i < |accounts|
    ensures Balance(Credit(accounts, i, amount), x)
            == Balance(accounts, x) + (if Find(accounts, x) == Some(i) then amount else 0)
  {
    CreditKeepsLookups(accounts, i, amount);
  }

  /**
   * Crediting the first entry of an address raises that address's balance,
   * and the total, by the amount and leaves every other balance as it was.
   */
  lemma CreditAddress(accounts: seq<Account>, i: nat, amount: int, address: string, credited: seq<Account>)
    requires Find(accounts, address) == Some(i) && credited == Credit(accounts, i, amount)
    ensures Total(credited) == Total(accounts) + amount
    ensures forall a :: Balance(credited, a) == Balance(accounts, a) + (if a == address then amount else 0)
  {
    CreditKeepsLookups(accounts, i, amount);
    forall a ensures Balance(credited, a) == Balance(accounts, a) + (if a == address then amount else 0) {
      CreditBalance(accounts, i, amount, a);
      FindIdentifies(accounts, address, a);
    }
  }

  /**
   * Crediting an entry keeps addresses unique, and keeps balances
   * non-negative when the entry's own new balance is.
   */
  lemma CreditKeepsInvariants(accounts: seq<Account>, i: nat, amount: int)
    requires i < |accounts|
    ensures Unique(accounts) ==> Unique(Credit(accounts, i, amount))
    ensures NonNegative(accounts) && accounts[i].balance + amount >= 0 ==> NonNegative(Credit(accounts, i, amount))
  {
    var r := Credit(accounts, i, amount);
    if Unique(accounts) {
      forall k, l | 0 <= k < l < |r| ensures r[k].fromAddress != r[l].fromAddress {
        assert r[k].fromAddress == accounts[k].fromAddress && r[l].fromAddress == accounts[l].fromAddress;
      }
    }
  }

  /** Debiting one entry and crediting another by the same amount keeps the addresses and the total. */
  lemma MoveConserves(accounts: seq<Account>, i: nat, j: nat, amount: int)
    requires i < |accounts| && j < |accounts|
    ensures SameAddresses(Credit(Credit(accounts, i, -amount), j, amount), accounts)
    ensures Total(Credit(Credit(accounts, i, -amount), j, amount)) == Total(accounts)
  {
    var debited := Credit(accounts, i, -amount);
    CreditKeepsLookups(accounts, i, -amount);
    CreditKeepsLookups(debited, j, amount);
  }

  /**
   * Debiting the first entry of `from` and crediting the first entry of
   * `to` by the same amount moves the amount between their balances.
   */
  lemma MoveBalance(accounts: seq<Account>, i: nat, j: nat, amount: int, from: string, to: string, a: string)
    requires Find(accounts, from) == Some(i) && Find(accounts, to) == Some(j)
    ensures Balance(Credit(Credit(accounts, i, -amount), j, amount), a)
            == Balance(accounts, a) - (if a == from then amount else 0) + (if a == to then amount else 0)
  {
    var debited := Credit(accounts, i, -amount);
    CreditKeepsLookups(accounts, i, -amount);
    assert Find(debited, a) == Find(accounts, a);
    FindIdentifies(accounts, from, a);
    FindIdentifies(accounts, to, a);
    CreditBalance(accounts, i, -amount, a);
    CreditBalance(debited, j, amount, a);
  }

  /** A deposit changes the balance of its own address by the amount and no other. */
  lemma DepositBalance(accounts: seq<Account>, address: string, amount: int, other: string)
    requires Find(accounts, address).Some?
    ensures Balance(Deposit(accounts, address, amount), other)
            == Balance(accounts, other) + (if other == address then amount else 0)
  {
    var i := Find(accounts, address).value;
    CreditBalance(accounts, i, amount, other);
  }

  /** A deposit to an existing account raises the total by exactly the amount. */
  lemma DepositTotal(accounts: seq<Account>, address: string, amount: int)
    requires Find(accounts, address).Some?
    ensures Total(Deposit(accounts, address, amount)) == Total(accounts) + amount
  {
    CreditKeepsLookups(accounts, Find(accounts, address).value, amount);
  }

  /** A deposit that leaves its own balance non-negative keeps every balance non-negative. */
  lemma DepositNonNegative(accounts: seq<Account>, address: string, amount: int)
    requires NonNegative(accounts) && Find(accounts, address).Some?
    requires Balance(accounts, address) + amount >= 0
    ensures NonNegative(Deposit(accounts, address, amount))
  {
  }

  /** Taking an amount out of an entry and putting it back restores the table. */
  lemma CreditCancel(accounts: seq<Account>, i: nat, amount: int)
    requires i < |accounts|
    ensures Credit(Credit(accounts, i, -amount), i, amount) == accounts
  {
    var twice := Credit(Credit(accounts, i, -amount), i, amount);
    assert forall j :: 0 <= j < |accounts| ==> twice[j] == accounts[j];
  }

  lemma {:induction false} SumFromAppend(accounts: seq<Account>, a: Account, start: nat)
    requires start <= |accounts|
    ensures SumFrom(accounts + [a], start) == SumFrom(accounts, start) + a.balance
    decreases |accounts| - start
  {
    if start < |accounts| {
      SumFromAppend(accounts, a, start + 1);
    }
  }

  /** Opening an entry raises the total by its balance. */
  lemma TotalAppend(accounts: seq<Account>, a: Account)
    ensures Total(accounts + [a]) == Total(accounts) + a.balance
  {
    SumFromAppend(accounts, a, 0);
  }
}
