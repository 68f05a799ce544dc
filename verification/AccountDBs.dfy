/** The account database: every ledger operation over one flat key-value store, with its receipt. */
module AccountDBs {
  import opened Wrappers
  import opened Addresses
  import opened Ledgers

  const MAX_COIN := 1_000_000_000
  const MAX_TOKEN_BALANCE := 9_000_000_000_000_000_000

  datatype KV = KV(key: string, value: Account)

  type Store = map<string, Account>

  datatype LedgerError = ErrAmount | ErrNoBalance | ErrSendSameToRecv | ErrNotAllowDeposit

  /** Receipt with the pairs written, an error, or a panic half way. */
  datatype Outcome = Done(kvs: seq<KV>) | Failed(error: LedgerError) | Panicked

  /** The store after writing the pairs in order. */
  function Replay(store: Store, kvs: seq<KV>): Store {
    if kvs == [] then store else
    Replay(store, kvs[..|kvs| - 1])[kvs[|kvs| - 1].key := kvs[|kvs| - 1].value]
  }

  lemma {:induction false} ReplayAppend(store: Store, a: seq<KV>, b: seq<KV>)
    ensures Replay(store, a + b) == Replay(Replay(store, a), b)
  {
    if b == [] {
      assert a + b == a;
    } else {
      var n := |b| - 1;
      assert (a + b)[..|a + b| - 1] == a + b[..n];
      ReplayAppend(store, a, b[..n]);
    }
  }

  ghost predicate MirrorAt(prefix: string, store: Store, m: Accounts, k: Key) {
    && (Flat(prefix, k) in store <==> k in m)
    && (k in m ==> store[Flat(prefix, k)] == m[k])
  }

  /** The flat store holds exactly these accounts under clean keys. */
  ghost predicate Mirrors(prefix: string, store: Store, m: Accounts) {
    && (forall k {:trigger k in m} | k in m :: CleanKey(k))
    && (forall k {:trigger MirrorAt(prefix, store, m, k)} | CleanKey(k) :: MirrorAt(prefix, store, m, k))
  }

  lemma MirrorsWrite(prefix: string, store: Store, m: Accounts, k: Key, a: Account)
    requires Mirrors(prefix, store, m) && CleanKey(k)
    ensures Mirrors(prefix, store[Flat(prefix, k) := a], m[k := a])
  {
    var s, n := store[Flat(prefix, k) := a], m[k := a];
    forall l | CleanKey(l) ensures MirrorAt(prefix, s, n, l) {
      assert MirrorAt(prefix, store, m, l);
      if Flat(prefix, l) == Flat(prefix, k) { FlatIsInjective(prefix, l, k); }
    }
  }

  lemma MirrorsRead(prefix: string, store: Store, m: Accounts, k: Key)
    requires Mirrors(prefix, store, m) && CleanKey(k)
    ensures Flat(prefix, k) in store <==> k in m
    ensures k in m ==> store[Flat(prefix, k)] == m[k]
  {
    assert MirrorAt(prefix, store, m, k);
  }

  /** An account is stored under the key of its own address. */
  ghost predicate WellKeyed(m: Accounts) {
    forall k {:trigger k in m} | k in m :: FormatAddrKey(m[k].addr) == k.addr
  }

  /** The account is stored under the key of this clean address. */
  predicate Fits(a: Account, addr: string) {
    Clean(addr) && FormatAddrKey(a.addr) == FormatAddrKey(addr)
  }

  class AccountDB {
    const prefix: string
    const coinPrecision: int
    const minerExecs: seq<string>  // addresses of the contracts that may issue coins
    var store: Store
    ghost var accounts: Accounts
    ghost var tidy: bool  // only clean addresses were written so far

    /** While only clean addresses were written, the flat store is a ledger. */
    ghost predicate Valid()
      reads this
    {
      tidy ==> Mirrors(prefix, store, accounts) && WellKeyed(accounts)
    }

    ghost predicate Tidy(a: string, b: string)
      reads this`tidy
    {
      tidy && Clean(a) && Clean(b)
    }

    /** An empty ledger of one symbol. */
    constructor (exec: string, symbol: string, coinPrecision: int, minerExecs: seq<string>)
      ensures Valid() && tidy && accounts == map[] && store == map[]
      ensures this.coinPrecision == coinPrecision && this.minerExecs == minerExecs
    {
      prefix := "mavl-" + exec + "-" + symbol + "-";
      this.coinPrecision, this.minerExecs := coinPrecision, minerExecs;
      store, accounts, tidy := map[], map[], true;
      new;
      forall k | CleanKey(k) ensures MirrorAt(prefix, store, accounts, k) {
      }
    }

    predicate CheckAmount(amount: int) {
      0 < amount < MAX_COIN * coinPrecision
    }

    function AccountKey(addr: string): string {
      prefix + FormatAddrKey(addr)
    }

    function ExecAccountKey(addr: string, execaddr: string): string {
      prefix + "exec-" + execaddr + ":" + FormatAddrKey(addr)
    }

    /** What is stored under an address's key; an empty account when nothing is. */
    function Stored(addr: string): Account
      reads this`store
    {
      if AccountKey(addr) in store then store[AccountKey(addr)] else Account(addr, 0, 0)
    }

    /** What is stored under the key of an address in a contract. */
    function StoredIn(execaddr: string, addr: string): Account
      reads this`store
    {
      if ExecAccountKey(addr, execaddr) in store then store[ExecAccountKey(addr, execaddr)] else Account(addr, 0, 0)
    }

    method LoadAccount(addr: string) returns (a: Account)
      requires Valid()
      ensures a == Stored(addr)
      ensures Tidy(addr, addr) ==> a == MainOf(accounts, AddressOf(addr)) && Fits(a, addr)
      ensures Tidy(addr, addr) && NonNegative(accounts) ==> a.balance >= 0 && a.frozen >= 0
    {
      if Tidy(addr, addr) {
        if NonNegative(accounts) { LoadedIsSolvent(accounts, AddressOf(addr), AddressOf(addr)); }
        FormatKeepsClean(addr);
        MirrorsRead(prefix, store, accounts, Main(FormatAddrKey(addr)));
      }
      a := if AccountKey(addr) in store then store[AccountKey(addr)] else Account(addr, 0, 0);
    }

    method LoadExecAccount(addr: string, execaddr: string) returns (a: Account)
      requires Valid()
      ensures a == StoredIn(execaddr, addr)
      ensures Tidy(addr, execaddr) ==> a == SubOf(accounts, AddressOf(execaddr), AddressOf(addr)) && Fits(a, addr)
      ensures Tidy(addr, execaddr) && NonNegative(accounts) ==> a.balance >= 0 && a.frozen >= 0
    {
      if Tidy(addr, execaddr) {
        if NonNegative(accounts) { LoadedIsSolvent(accounts, AddressOf(execaddr), AddressOf(addr)); }
        FormatKeepsClean(addr);
        MirrorsRead(prefix, store, accounts, Sub(AddressOf(execaddr), FormatAddrKey(addr)));
      }
      a := if ExecAccountKey(addr, execaddr) in store then store[ExecAccountKey(addr, execaddr)]
          else Account(addr, 0, 0);
    }

    function GetKVSet(a: Account): seq<KV> {
      [KV(AccountKey(a.addr), a)]
    }

    function GetExecKVSet(execaddr: string, a: Account): seq<KV> {
      [KV(ExecAccountKey(a.addr, execaddr), a)]
    }

    /** Writes pairs in order. */
    method SaveKVSet(kvs: seq<KV>)
      modifies this`store
      ensures store == Replay(old(store), kvs)
    {
      for i := 0 to |kvs|
        invariant store == Replay(old(store), kvs[..i])
      {
        assert kvs[..i + 1][..i] == kvs[..i];
        store := store[kvs[i].key := kvs[i].value];
      }
      assert kvs[..|kvs|] == kvs;
    }

    /** Writes one main account; addr is any spelling of its address. */
    method SaveAccount(a: Account, ghost addr: string)
      requires Valid()
      modifies this
      ensures Valid() && store == Replay(old(store), GetKVSet(a))
      ensures old(tidy) && Fits(a, addr) ==> tidy && accounts == old(accounts)[Main(AddressOf(addr).key) := a]
    {
      tidy := tidy && Fits(a, addr);
      if tidy {
        FormatKeepsClean(addr);
        MirrorsWrite(prefix, store, accounts, Main(FormatAddrKey(addr)), a);
      }
      SaveKVSet(GetKVSet(a));
      accounts := accounts[Main(FormatAddrKey(addr)) := a];
      assert GetKVSet(a)[..0] == [];
    }

    /** Writes one sub-account; addr is any spelling of its address. */
    method SaveExecAccount(execaddr: string, a: Account, ghost addr: string)
      requires Valid()
      modifies this
      ensures Valid() && store == Replay(old(store), GetExecKVSet(execaddr, a))
      ensures old(tidy) && Clean(execaddr) && Fits(a, addr) ==>
                tidy && accounts == old(accounts)[Sub(AddressOf(execaddr), AddressOf(addr).key) := a]
    {
      tidy := tidy && Clean(execaddr) && Fits(a, addr);
      if tidy {
        FormatKeepsClean(addr);
        MirrorsWrite(prefix, store, accounts, Sub(AddressOf(execaddr), FormatAddrKey(addr)), a);
      }
      SaveKVSet(GetExecKVSet(execaddr, a));
      accounts := accounts[Sub(AddressOf(execaddr), FormatAddrKey(addr)) := a];
      assert GetExecKVSet(execaddr, a)[..0] == [];
    }

    // ----- main accounts -----

    method CheckTransfer(from: string, to: string, amount: int) returns (err: Option<LedgerError>)
      requires Valid()
      ensures err == if amount <= 0 || amount >= MAX_COIN * coinPrecision then Some(ErrAmount)
                     else if Stored(from).balance < amount then Some(ErrNoBalance) else None
      ensures err.None? && Tidy(from, from) ==> MainOf(accounts, AddressOf(from)).balance >= amount
    {
      if !CheckAmount(amount) {
        return Some(ErrAmount);
      }
      var accFrom := LoadAccount(from);
      if accFrom.balance - amount < 0 {
        return Some(ErrNoBalance);
      }
      err := None;
    }

    /** What Transfer refuses; an address may not pay itself, however it is spelled. */
    ghost function TransferError(from: string, to: string, amount: int): Option<LedgerError>
      reads this
    {
      if !CheckAmount(amount) then Some(ErrAmount)
      else if Stored(from).addr == Stored(to).addr then Some(ErrSendSameToRecv)
      else if Stored(from).balance < amount then Some(ErrNoBalance)
      else None
    }

    /** Writes two main accounts one after the other. */
    method SaveMainPair(a: Account, b: Account, from: string, to: string) returns (kvs: seq<KV>)
      requires Valid()
      modifies this
      ensures Valid() && store == Replay(old(store), kvs)
      ensures old(tidy) && Fits(a, from) && Fits(b, to) ==>
                tidy && accounts == old(accounts)[Main(AddressOf(from).key) := a][Main(AddressOf(to).key) := b]
    {
      var fromKvs, toKvs := GetKVSet(a), GetKVSet(b);
      SaveAccount(a, from);
      SaveAccount(b, to);
      ReplayAppend(old(store), fromKvs, toKvs);
      kvs := fromKvs + toKvs;
    }

    /** Moves d from one loaded account to another and writes both. */
    method SaveTransfer(accFrom: Account, accTo: Account, from: string, to: string, d: int) returns (r: Outcome)
      requires Valid() && d > 0 && accFrom.balance >= d && accFrom.addr != accTo.addr
      requires Tidy(from, to) ==> accFrom == MainOf(accounts, AddressOf(from)) && Fits(accFrom, from)
      requires Tidy(from, to) ==> accTo == MainOf(accounts, AddressOf(to)) && Fits(accTo, to)
      modifies this
      ensures Valid() && r.Done? && store == Replay(old(store), r.kvs)
      ensures old(Tidy(from, to)) ==>
                && tidy && FormatAddrKey(from) != FormatAddrKey(to)
                && accounts == Apply(old(accounts), Transferred(AddressOf(from), AddressOf(to), d))
      ensures old(Tidy(from, to) && NonNegative(accounts)) ==> NonNegative(accounts)
    {
      var kvs := SaveMainPair(accFrom.(balance := accFrom.balance - d), accTo.(balance := accTo.balance + d), from, to);
      if old(Tidy(from, to)) {
        TransferEffect(old(accounts), accounts, AddressOf(from), AddressOf(to), accFrom, accTo, d);
      }
      r := Done(kvs);
    }

    /** Moves funds between two main accounts. */
    method Transfer(from: string, to: string, amount: int) returns (r: Outcome)
      requires Valid()
      modifies this
      ensures Valid() && !r.Panicked?
      ensures old(TransferError(from, to, amount)) == if r.Failed? then Some(r.error) else None
      ensures r.Failed? ==> unchanged(this)
      ensures r.Done? ==> store == Replay(old(store), r.kvs)
      ensures r.Done? && old(Tidy(from, to)) ==>
                && tidy && FormatAddrKey(from) != FormatAddrKey(to) && amount > 0
                && old(MainOf(accounts, AddressOf(from)).balance) >= amount
                && accounts == Apply(old(accounts), Transferred(AddressOf(from), AddressOf(to), amount))
      ensures r.Failed? && old(Tidy(from, to)) && CheckAmount(amount)
                && MainOf(accounts, AddressOf(from)).balance >= amount ==>
                FormatAddrKey(from) == FormatAddrKey(to)
      ensures old(Tidy(from, to) && NonNegative(accounts)) ==> NonNegative(accounts)
    {
      if !CheckAmount(amount) {
        return Failed(ErrAmount);
      }
      var accFrom := LoadAccount(from);
      var accTo := LoadAccount(to);
      if accFrom.addr == accTo.addr {
        return Failed(ErrSendSameToRecv);
      }
      if accFrom.balance - amount >= 0 {
        r := SaveTransfer(accFrom, accTo, from, to, amount);
        return;
      }
      r := Failed(ErrNoBalance);
    }

    /** An account whose balance and frozen funds have changed. */
    function Changed(a: Account, d: int, f: int): Account {
      a.(balance := a.balance + d, frozen := a.frozen + f)
    }

    /** In a ledger of clean addresses, what is stored is the ledger. */
    lemma StoredIsLedger(addr: string, execaddr: string)
      requires Valid() && Tidy(addr, execaddr)
      ensures Stored(addr) == MainOf(accounts, AddressOf(addr))
      ensures StoredIn(execaddr, addr) == SubOf(accounts, AddressOf(execaddr), AddressOf(addr))
    {
      FormatKeepsClean(addr);
      MirrorsRead(prefix, store, accounts, Main(FormatAddrKey(addr)));
      MirrorsRead(prefix, store, accounts, Sub(AddressOf(execaddr), FormatAddrKey(addr)));
    }

    /** Changes one main balance and writes it. */
    method AdjustMain(a: Account, addr: string, d: int) returns (r: Outcome)
      requires Valid() && (Tidy(addr, addr) ==> a == MainOf(accounts, AddressOf(addr)) && Fits(a, addr))
      modifies this
      ensures Valid() && r.Done? && store == Replay(old(store), r.kvs) && r.kvs == GetKVSet(Changed(a, d, 0))
      ensures old(Tidy(addr, addr)) ==> tidy && accounts == Apply(old(accounts), Created(AddressOf(addr), d))
      ensures old(Tidy(addr, addr) && NonNegative(accounts)) ==> (NonNegative(accounts) <==> a.balance + d >= 0)
    {
      var b := a.(balance := a.balance + d);
      SaveAccount(b, addr);
      if old(Tidy(addr, addr)) { CreateEffect(old(accounts), accounts, AddressOf(addr), d); }
      r := Done(GetKVSet(b));
    }

    method DepositBalance(execaddr: string, amount: int) returns (r: Outcome)
      requires Valid()
      modifies this
      ensures Valid() && !r.Panicked? && (r.Done? <==> CheckAmount(amount))
      ensures r.Failed? ==> r.error == ErrAmount && unchanged(this)
      ensures r.Done? ==> store == Replay(old(store), r.kvs)
      ensures r.Done? && old(Tidy(execaddr, execaddr)) ==>
                tidy && accounts == Apply(old(accounts), Created(AddressOf(execaddr), amount))
      ensures old(Tidy(execaddr, execaddr) && NonNegative(accounts)) ==> NonNegative(accounts)
    {
      if !CheckAmount(amount) {
        return Failed(ErrAmount);
      }
      var a := LoadAccount(execaddr);
      r := AdjustMain(a, execaddr, amount);
    }

    method Mint(addr: string, amount: int) returns (r: Outcome)
      requires Valid()
      modifies this
      ensures Valid() && !r.Panicked?
      ensures r.Done? <==> CheckAmount(amount) && SafeAdd(old(Stored(addr).balance), amount).Some?
      ensures r.Failed? ==> r.error == ErrAmount && unchanged(this)
      ensures r.Done? ==> store == Replay(old(store), r.kvs)
      ensures r.Done? && old(Tidy(addr, addr)) ==>
                tidy && accounts == Apply(old(accounts), Created(AddressOf(addr), amount))
      ensures old(Tidy(addr, addr) && NonNegative(accounts)) ==> NonNegative(accounts)
    {
      if !CheckAmount(amount) {
        return Failed(ErrAmount);
      }
      var accTo := LoadAccount(addr);
      var balance := SafeAdd(accTo.balance, amount);
      if balance.None? {
        return Failed(ErrAmount);
      }
      r := AdjustMain(accTo, addr, amount);
    }

    method Burn(addr: string, amount: int) returns (r: Outcome)
      requires Valid()
      modifies this
      ensures Valid() && !r.Panicked?
      ensures r.Done? <==> CheckAmount(amount) && old(Stored(addr).balance) >= amount
      ensures r.Failed? ==> r.error == (if CheckAmount(amount) then ErrNoBalance else ErrAmount) && unchanged(this)
      ensures r.Done? ==> store == Replay(old(store), r.kvs)
      ensures r.Done? && old(Tidy(addr, addr)) ==>
                tidy && accounts == Apply(old(accounts), Created(AddressOf(addr), -amount))
      ensures old(Tidy(addr, addr) && NonNegative(accounts)) ==> NonNegative(accounts)
    {
      if !CheckAmount(amount) {
        return Failed(ErrAmount);
      }
      var accTo := LoadAccount(addr);
      if accTo.balance < amount {
        return Failed(ErrNoBalance);
      }
      r := AdjustMain(accTo, addr, -amount);
    }

    method GenesisInit(addr: string, amount: int) returns (r: Outcome)
      requires Valid()
      modifies this
      ensures Valid() && !r.Panicked?
      ensures r.Done? <==> SafeAdd(old(Stored(addr).balance), amount).Some?
      ensures r.Failed? ==> r.error == ErrAmount && unchanged(this)
      ensures r.Done? ==> store == Replay(old(store), r.kvs) && r.kvs == GetKVSet(Changed(old(Stored(addr)), amount, 0))
      ensures r.Done? && old(Tidy(addr, addr)) ==>
                tidy && accounts == Apply(old(accounts), Created(AddressOf(addr), amount))
      ensures r.Done? && old(Tidy(addr, addr) && NonNegative(accounts)) ==>
                (NonNegative(accounts) <==> old(MainOf(accounts, AddressOf(addr)).balance) + amount >= 0)
      ensures amount >= 0 && old(Tidy(addr, addr) && NonNegative(accounts)) ==> NonNegative(accounts)
    {
      var accTo := LoadAccount(addr);
      var balance := SafeAdd(accTo.balance, amount);
      if balance.None? {
        return Failed(ErrAmount);
      }
      r := AdjustMain(accTo, addr, amount);
    }

    // ----- sub-accounts -----

    /** Changes one sub-account and writes it. */
    method AdjustExec(a: Account, addr: string, execaddr: string, d: int, f: int) returns (r: Outcome)
      requires Valid()
      requires Tidy(addr, execaddr) ==> a == SubOf(accounts, AddressOf(execaddr), AddressOf(addr)) && Fits(a, addr)
      modifies this
      ensures Valid() && r.Done? && store == Replay(old(store), r.kvs)
                && r.kvs == GetExecKVSet(execaddr, Changed(a, d, f))
      ensures old(Tidy(addr, execaddr)) ==>
                && tidy && accounts == Post(old(accounts), [OnSub(AddressOf(execaddr), AddressOf(addr), d, f)])
                && (f == -d ==>
                      accounts == Apply(old(accounts), FrozeOrActivated(AddressOf(addr), AddressOf(execaddr), d)))
      ensures old(Tidy(addr, execaddr) && NonNegative(accounts)) ==>
                (NonNegative(accounts) <==> a.balance + d >= 0 && a.frozen + f >= 0)
    {
      var b := a.(balance := a.balance + d, frozen := a.frozen + f);
      SaveExecAccount(execaddr, b, addr);
      if old(Tidy(addr, execaddr)) {
        AdjustEffect(old(accounts), accounts, AddressOf(execaddr), AddressOf(addr), d, f);
      }
      r := Done(GetExecKVSet(execaddr, b));
    }

    /** How the operations on one sub-account are refused. */
    ghost function RefusedBy(addr: string, execaddr: string, amount: int): LedgerError {
      if addr == execaddr then ErrSendSameToRecv else if !CheckAmount(amount) then ErrAmount else ErrNoBalance
    }

    method ExecDeposit(addr: string, execaddr: string, amount: int) returns (r: Outcome)
      requires Valid()
      modifies this
      ensures Valid() && !r.Panicked?
      ensures r.Failed? <==> addr == execaddr || !CheckAmount(amount)
      ensures r.Failed? ==> r.error == RefusedBy(addr, execaddr, amount) && unchanged(this)
      ensures r.Done? ==> store == Replay(old(store), r.kvs)
      ensures r.Done? && old(Tidy(addr, execaddr)) ==>
                tidy && accounts == Post(old(accounts), [OnSub(AddressOf(execaddr), AddressOf(addr), amount, 0)])
      ensures old(Tidy(addr, execaddr) && NonNegative(accounts)) ==> NonNegative(accounts)
    {
      if addr == execaddr {
        return Failed(ErrSendSameToRecv);
      }
      if !CheckAmount(amount) {
        return Failed(ErrAmount);
      }
      var a := LoadExecAccount(addr, execaddr);
      r := AdjustExec(a, addr, execaddr, amount, 0);
    }

    method ExecWithdraw(execaddr: string, addr: string, amount: int) returns (r: Outcome)
      requires Valid()
      modifies this
      ensures Valid() && !r.Panicked?
      ensures r.Done? <==> addr != execaddr && CheckAmount(amount) && old(StoredIn(execaddr, addr).balance) >= amount
      ensures r.Failed? ==> r.error == RefusedBy(addr, execaddr, amount) && unchanged(this)
      ensures r.Done? ==> store == Replay(old(store), r.kvs)
      ensures r.Done? ==> r.kvs == GetExecKVSet(execaddr, Changed(old(StoredIn(execaddr, addr)), -amount, 0))
      ensures r.Done? && old(Tidy(addr, execaddr)) ==>
                tidy && accounts == Post(old(accounts), [OnSub(AddressOf(execaddr), AddressOf(addr), -amount, 0)])
      ensures old(Tidy(addr, execaddr) && NonNegative(accounts)) ==> NonNegative(accounts)
    {
      if addr == execaddr {
        return Failed(ErrSendSameToRecv);
      }
      if !CheckAmount(amount) {
        return Failed(ErrAmount);
      }
      var a := LoadExecAccount(addr, execaddr);
      if a.balance - amount < 0 {
        return Failed(ErrNoBalance);
      }
      r := AdjustExec(a, addr, execaddr, -amount, 0);
    }

    method ExecFrozen(addr: string, execaddr: string, amount: int) returns (r: Outcome)
      requires Valid()
      modifies this
      ensures Valid() && !r.Panicked?
      ensures r.Done? <==> addr != execaddr && CheckAmount(amount) && old(StoredIn(execaddr, addr).balance) >= amount
      ensures r.Failed? ==> r.error == RefusedBy(addr, execaddr, amount) && unchanged(this)
      ensures r.Done? ==> store == Replay(old(store), r.kvs)
      ensures r.Done? && old(Tidy(addr, execaddr)) ==>
                tidy && accounts == Apply(old(accounts),
                    FrozeOrActivated(AddressOf(addr), AddressOf(execaddr), -amount))
      ensures old(Tidy(addr, execaddr) && NonNegative(accounts)) ==> NonNegative(accounts)
    {
      if addr == execaddr {
        return Failed(ErrSendSameToRecv);
      }
      if !CheckAmount(amount) {
        return Failed(ErrAmount);
      }
      var a := LoadExecAccount(addr, execaddr);
      if a.balance - amount < 0 {
        return Failed(ErrNoBalance);
      }
      r := AdjustExec(a, addr, execaddr, -amount, amount);
    }

    method ExecActive(addr: string, execaddr: string, amount: int) returns (r: Outcome)
      requires Valid()
      modifies this
      ensures Valid() && !r.Panicked?
      ensures r.Done? <==> addr != execaddr && CheckAmount(amount) && old(StoredIn(execaddr, addr).frozen) >= amount
      ensures r.Failed? ==> r.error == RefusedBy(addr, execaddr, amount) && unchanged(this)
      ensures r.Done? ==> store == Replay(old(store), r.kvs)
      ensures r.Done? && old(Tidy(addr, execaddr)) ==>
                tidy && accounts == Apply(old(accounts), FrozeOrActivated(AddressOf(addr), AddressOf(execaddr), amount))
      ensures old(Tidy(addr, execaddr) && NonNegative(accounts)) ==> NonNegative(accounts)
    {
      if addr == execaddr {
        return Failed(ErrSendSameToRecv);
      }
      if !CheckAmount(amount) {
        return Failed(ErrAmount);
      }
      var a := LoadExecAccount(addr, execaddr);
      if a.frozen - amount < 0 {
        return Failed(ErrNoBalance);
      }
      r := AdjustExec(a, addr, execaddr, amount, -amount);
    }

    /** Writes two sub-accounts of a contract one after the other. */
    method SaveExecPair(execaddr: string, a: Account, b: Account, from: string, to: string) returns (kvs: seq<KV>)
      requires Valid()
      modifies this
      ensures Valid() && store == Replay(old(store), kvs)
      ensures old(tidy) && Clean(execaddr) && Fits(a, from) && Fits(b, to) ==>
                && tidy
                && accounts == old(accounts)[Sub(AddressOf(execaddr), AddressOf(from).key) :=
                      a][Sub(AddressOf(execaddr), AddressOf(to).key) := b]
    {
      var fromKvs, toKvs := GetExecKVSet(execaddr, a), GetExecKVSet(execaddr, b);
      SaveExecAccount(execaddr, a, from);
      SaveExecAccount(execaddr, b, to);
      ReplayAppend(old(store), fromKvs, toKvs);
      kvs := fromKvs + toKvs;
    }

    ghost predicate TidyInside(from: string, to: string, execaddr: string)
      reads this`tidy
    {
      Tidy(from, execaddr) && Clean(to)
    }

    /** Moves an amount from the payer's balance or frozen funds to the receiver's balance, and writes both. */
    method SavePair(execaddr: string, accFrom: Account, accTo: Account, from: string, to: string, amount: int,
        frozen: bool)
      returns (r: Outcome)
      requires Valid() && amount > 0 && (if frozen then accFrom.frozen else accFrom.balance) >= amount
      requires TidyInside(from, to, execaddr) ==>
                 && accFrom == SubOf(accounts, AddressOf(execaddr), AddressOf(from)) && Fits(accFrom, from)
                 && accTo == SubOf(accounts, AddressOf(execaddr), AddressOf(to)) && Fits(accTo, to)
      modifies this
      ensures Valid() && r.Done? && store == Replay(old(store), r.kvs)
      ensures old(TidyInside(from, to, execaddr)) ==>
                && tidy
                && accounts == Apply(old(accounts),
                      MovedInside(AddressOf(from), AddressOf(to), AddressOf(execaddr), amount, frozen))
      ensures old(TidyInside(from, to, execaddr) && NonNegative(accounts)) ==> NonNegative(accounts)
    {
      var paid := if frozen then accFrom.(frozen := accFrom.frozen - amount)
          else accFrom.(balance := accFrom.balance - amount);
      var received := accTo.(balance := accTo.balance + amount);
      var kvs := SaveExecPair(execaddr, paid, received, from, to);
      if old(TidyInside(from, to, execaddr)) {
        MoveEffect(old(accounts), accounts, AddressOf(execaddr), AddressOf(from), AddressOf(to), accFrom, accTo,
            amount, frozen);
      }
      r := Done(kvs);
    }

    /** Moves funds between two sub-accounts of a contract. Both accounts are loaded before either is written, so for
        two spellings of one address the second write undoes the first. */
    method ExecTransfer(from: string, to: string, execaddr: string, amount: int) returns (r: Outcome)
      requires Valid()
      modifies this
      ensures Valid() && !r.Panicked?
      ensures r.Done? <==> from != to && CheckAmount(amount) && old(StoredIn(execaddr, from).balance) >= amount
      ensures r.Failed? ==> r.error == RefusedBy(from, to, amount) && unchanged(this)
      ensures r.Done? ==> store == Replay(old(store), r.kvs)
      ensures r.Done? && old(TidyInside(from, to, execaddr)) ==>
                && tidy && amount > 0
                && accounts == Apply(old(accounts),
                      MovedInside(AddressOf(from), AddressOf(to), AddressOf(execaddr), amount, false))
      ensures old(TidyInside(from, to, execaddr) && NonNegative(accounts)) ==> NonNegative(accounts)
    {
      if from == to {
        return Failed(ErrSendSameToRecv);
      }
      if !CheckAmount(amount) {
        return Failed(ErrAmount);
      }
      var accFrom := LoadExecAccount(from, execaddr);
      var accTo := LoadExecAccount(to, execaddr);
      if accFrom.balance - amount < 0 {
        return Failed(ErrNoBalance);
      }
      r := SavePair(execaddr, accFrom, accTo, from, to, amount, false);
    }

    /** As ExecTransfer, out of the sender's frozen funds. */
    method ExecTransferFrozen(from: string, to: string, execaddr: string, amount: int) returns (r: Outcome)
      requires Valid()
      modifies this
      ensures Valid() && !r.Panicked?
      ensures r.Done? <==> from != to && CheckAmount(amount) && old(StoredIn(execaddr, from).frozen) >= amount
      ensures r.Failed? ==> r.error == RefusedBy(from, to, amount) && unchanged(this)
      ensures r.Done? ==> store == Replay(old(store), r.kvs)
      ensures r.Done? && old(TidyInside(from, to, execaddr)) ==>
                && tidy && amount > 0
                && accounts == Apply(old(accounts),
                      MovedInside(AddressOf(from), AddressOf(to), AddressOf(execaddr), amount, true))
      ensures old(TidyInside(from, to, execaddr) && NonNegative(accounts)) ==> NonNegative(accounts)
    {
      if from == to {
        return Failed(ErrSendSameToRecv);
      }
      if !CheckAmount(amount) {
        return Failed(ErrAmount);
      }
      var accFrom := LoadExecAccount(from, execaddr);
      var accTo := LoadExecAccount(to, execaddr);
      if accFrom.frozen - amount < 0 {
        return Failed(ErrNoBalance);
      }
      r := SavePair(execaddr, accFrom, accTo, from, to, amount, true);
    }

    /** Whether a contract may issue coins. */
    method MayIssue(execaddr: string) returns (allow: bool)
      ensures allow <==> execaddr in minerExecs
    {
      allow := false;
      for i := 0 to |minerExecs|
        invariant !allow && execaddr !in minerExecs[..i]
      {
        if minerExecs[i] == execaddr {
          return true;
        }
      }
    }

    method ExecIssueCoins(execaddr: string, amount: int) returns (r: Outcome)
      requires Valid()
      modifies this
      ensures Valid() && !r.Panicked?
      ensures r.Done? <==> execaddr in minerExecs && CheckAmount(amount)
      ensures r.Failed? ==>
                r.error == (if execaddr in minerExecs then ErrAmount else ErrNotAllowDeposit) && unchanged(this)
      ensures r.Done? ==> store == Replay(old(store), r.kvs)
      ensures r.Done? && old(Tidy(execaddr, execaddr)) ==>
                tidy && accounts == Apply(old(accounts), Created(AddressOf(execaddr), amount))
      ensures old(Tidy(execaddr, execaddr) && NonNegative(accounts)) ==> NonNegative(accounts)
    {
      var allow := MayIssue(execaddr);
      if !allow {
        return Failed(ErrNotAllowDeposit);
      }
      r := DepositBalance(execaddr, amount);
    }

    method ExecDepositFrozenOnly(addr: string, execaddr: string, amount: int) returns (r: Outcome)
      requires Valid()
      modifies this
      ensures Valid() && !r.Panicked?
      ensures r.Failed? <==> addr == execaddr || !CheckAmount(amount)
      ensures r.Failed? ==> unchanged(this)
      ensures r.Done? ==> store == Replay(old(store), r.kvs)
      ensures r.Done? && old(Tidy(addr, execaddr)) ==>
                tidy && accounts == Post(old(accounts), [OnSub(AddressOf(execaddr), AddressOf(addr), 0, amount)])
      ensures old(Tidy(addr, execaddr) && NonNegative(accounts)) ==> NonNegative(accounts)
    {
      if addr == execaddr {
        return Failed(ErrSendSameToRecv);
      }
      if !CheckAmount(amount) {
        return Failed(ErrAmount);
      }
      var a := LoadExecAccount(addr, execaddr);
      r := AdjustExec(a, addr, execaddr, 0, amount);
    }

    // ----- composite operations -----

    /** Issues coins to a contract and freezes them for an address. */
    method ExecDepositFrozen(addr: string, execaddr: string, amount: int) returns (r: Outcome)
      requires Valid()
      modifies this
      ensures Valid() && !r.Panicked?
      ensures r.Done? <==> addr != execaddr && execaddr in minerExecs && CheckAmount(amount)
      ensures r.Failed? ==> unchanged(this)
      ensures r.Failed? ==>
                r.error == if addr == execaddr then ErrSendSameToRecv else if execaddr in minerExecs then ErrAmount
                    else ErrNotAllowDeposit
      ensures r.Done? ==> store == Replay(old(store), r.kvs)
      ensures r.Done? && old(Tidy(addr, execaddr)) ==>
                tidy && accounts == Apply(old(accounts), IssuedInto(AddressOf(addr), AddressOf(execaddr), amount, true))
      ensures old(Tidy(addr, execaddr) && NonNegative(accounts)) ==> NonNegative(accounts)
    {
      if addr == execaddr {
        return Failed(ErrSendSameToRecv);
      }
      var r1 := ExecIssueCoins(execaddr, amount);
      if !r1.Done? {
        return r1;
      }
      var r2 := ExecDepositFrozenOnly(addr, execaddr, amount);
      if !r2.Done? {
        return r2;
      }
      IssueComposes(old(accounts), AddressOf(addr), AddressOf(execaddr), amount, true);
      ReplayAppend(old(store), r1.kvs, r2.kvs);
      r := Done(r1.kvs + r2.kvs);
    }

    /** Moves main funds to a contract and credits the sender's sub-account there; the deposit never fails. */
    method TransferToExec(from: string, to: string, amount: int) returns (r: Outcome)
      requires Valid()
      modifies this
      ensures Valid() && !r.Panicked?
      ensures old(TransferError(from, to, amount)) == if r.Failed? then Some(r.error) else None
      ensures r.Failed? ==> unchanged(this)
      ensures r.Done? ==> store == Replay(old(store), r.kvs)
      ensures r.Done? && old(Tidy(from, to)) ==>
                && tidy && FormatAddrKey(from) != FormatAddrKey(to) && amount > 0
                && old(MainOf(accounts, AddressOf(from)).balance) >= amount
                && accounts == Apply(old(accounts), MovedIn(AddressOf(from), AddressOf(to), amount))
      ensures old(Tidy(from, to) && NonNegative(accounts)) ==> NonNegative(accounts)
    {
      var r1 := Transfer(from, to, amount);
      if !r1.Done? {
        return r1;
      }
      var r2 := ExecDeposit(from, to, amount);
      if !r2.Done? {
        return Panicked;
      }
      CompositesCompose(old(accounts), AddressOf(from), AddressOf(to), amount);
      ReplayAppend(old(store), r1.kvs, r2.kvs);
      r := Done(r1.kvs + r2.kvs);
    }

    /** What TransferWithdraw refuses. */
    ghost function WithdrawError(from: string, to: string, amount: int): Option<LedgerError>
      reads this
    {
      if !CheckAmount(amount) then Some(ErrAmount)
      else if Stored(to).balance < amount then Some(ErrNoBalance)
      else if from == to then Some(ErrSendSameToRecv)
      else if StoredIn(to, from).balance < amount then Some(ErrNoBalance)
      else None
    }

    /** Debits the receiver's sub-account in a contract and moves main funds back. The panic between the two steps is
        reached exactly when the checks pass and the two addresses are spellings of one; the debit then stays. */
    method TransferWithdraw(from: string, to: string, amount: int) returns (r: Outcome)
      requires Valid()
      modifies this
      ensures Valid()
      ensures old(WithdrawError(from, to, amount)) == if r.Failed? then Some(r.error) else None
      ensures r.Failed? ==> unchanged(this)
      ensures r.Done? ==> store == Replay(old(store), r.kvs)
      ensures r.Panicked? ==>
                store == Replay(old(store), GetExecKVSet(to, Changed(old(StoredIn(to, from)), -amount, 0)))
      ensures r.Panicked? && old(Tidy(from, to)) ==>
                && tidy
                && accounts == Post(old(accounts), [OnSub(AddressOf(to), AddressOf(from), -amount, 0)])
      ensures old(Tidy(from, to)) ==> (r.Panicked? <==> !r.Failed? && FormatAddrKey(from) == FormatAddrKey(to))
      ensures r.Done? && old(Tidy(from, to)) ==>
                && tidy && amount > 0
                && accounts == Apply(old(accounts), MovedOut(AddressOf(from), AddressOf(to), amount))
      ensures old(Tidy(from, to) && NonNegative(accounts)) ==> NonNegative(accounts)
    {
      var err := CheckTransfer(to, from, amount);
      if err.Some? {
        return Failed(err.value);
      }
      var r1 := ExecWithdraw(to, from, amount);
      if !r1.Done? {
        return r1;
      }
      var r2 := Transfer(to, from, amount);
      if !r2.Done? {
        return Panicked;
      }
      CompositesCompose(old(accounts), AddressOf(from), AddressOf(to), amount);
      ReplayAppend(old(store), r1.kvs, r2.kvs);
      r := Done(r1.kvs + r2.kvs);
    }

    /** Genesis funds of an address inside a contract. It panics exactly when the sum is acceptable but the deposit is
        not. */
    method GenesisInitExec(addr: string, amount: int, execaddr: string) returns (r: Outcome)
      requires Valid()
      modifies this
      ensures Valid()
      ensures r.Failed? <==> SafeAdd(old(Stored(execaddr).balance), amount).None?
      ensures r.Failed? ==> r.error == ErrAmount && unchanged(this)
      ensures r.Panicked? <==> !r.Failed? && (addr == execaddr || !CheckAmount(amount))
      ensures r.Panicked? ==> store == Replay(old(store), GetKVSet(Changed(old(Stored(execaddr)), amount, 0)))
      ensures r.Panicked? && old(Tidy(addr, execaddr)) ==>
                tidy && accounts == Apply(old(accounts), Created(AddressOf(execaddr), amount))
      ensures r.Done? ==> store == Replay(old(store), r.kvs)
      ensures r.Done? && old(Tidy(addr, execaddr)) ==>
                tidy && accounts == Apply(old(accounts),
                    IssuedInto(AddressOf(addr), AddressOf(execaddr), amount, false))
      ensures r.Done? && old(Tidy(addr, execaddr) && NonNegative(accounts)) ==> NonNegative(accounts)
    {
      if NonNegative(accounts) { LoadedIsSolvent(accounts, AddressOf(execaddr), AddressOf(execaddr)); }
      var r1 := GenesisInit(execaddr, amount);
      if !r1.Done? {
        return r1;
      }
      var r2 := ExecDeposit(addr, execaddr, amount);
      if !r2.Done? {
        return Panicked;
      }
      IssueComposes(old(accounts), AddressOf(addr), AddressOf(execaddr), amount, false);
      ReplayAppend(old(store), r1.kvs, r2.kvs);
      r := Done(r1.kvs + r2.kvs);
    }
  }

  // ----- runs of calls -----

  /** A call of one of the operations that keep the two levels of the ledger together. */
  datatype Request =
    | Pay(from: string, to: string, amount: int)
    | PayIn(from: string, exec: string, amount: int)
    | PayOut(addr: string, exec: string, amount: int)
    | PayInside(from: string, to: string, exec: string, amount: int)
    | PayFrozen(from: string, to: string, exec: string, amount: int)
    | Freeze(addr: string, exec: string, amount: int)
    | Activate(addr: string, exec: string, amount: int)
    | IssueFrozen(addr: string, exec: string, amount: int)
    | GenesisInside(addr: string, exec: string, amount: int)
    | Issue(exec: string, amount: int)
    | MintTo(addr: string, amount: int)
    | BurnFrom(addr: string, amount: int)
    | GenesisTo(addr: string, amount: int)

  function OperationOf(q: Request): Operation {
    match q
    case Pay(from, to, amount) => Transferred(AddressOf(from), AddressOf(to), amount)
    case PayIn(from, exec, amount) => MovedIn(AddressOf(from), AddressOf(exec), amount)
    case PayOut(addr, exec, amount) => MovedOut(AddressOf(addr), AddressOf(exec), amount)
    case PayInside(from, to, exec, amount) => MovedInside(AddressOf(from), AddressOf(to), AddressOf(exec), amount,
        false)
    case PayFrozen(from, to, exec, amount) => MovedInside(AddressOf(from), AddressOf(to), AddressOf(exec), amount, true)
    case Freeze(addr, exec, amount) => FrozeOrActivated(AddressOf(addr), AddressOf(exec), -amount)
    case Activate(addr, exec, amount) => FrozeOrActivated(AddressOf(addr), AddressOf(exec), amount)
    case IssueFrozen(addr, exec, amount) => IssuedInto(AddressOf(addr), AddressOf(exec), amount, true)
    case GenesisInside(addr, exec, amount) => IssuedInto(AddressOf(addr), AddressOf(exec), amount, false)
    case Issue(exec, amount) => Created(AddressOf(exec), amount)
    case MintTo(addr, amount) => Created(AddressOf(addr), amount)
    case BurnFrom(addr, amount) => Created(AddressOf(addr), -amount)
    case GenesisTo(addr, amount) => Created(AddressOf(addr), amount)
  }

  predicate CleanRequest(q: Request) {
    match q
    case Pay(from, to, _) => Clean(from) && Clean(to)
    case PayIn(from, exec, _) => Clean(from) && Clean(exec)
    case PayOut(addr, exec, _) => Clean(addr) && Clean(exec)
    case PayInside(from, to, exec, _) => Clean(from) && Clean(to) && Clean(exec)
    case PayFrozen(from, to, exec, _) => Clean(from) && Clean(to) && Clean(exec)
    case Freeze(addr, exec, _) => Clean(addr) && Clean(exec)
    case Activate(addr, exec, _) => Clean(addr) && Clean(exec)
    case IssueFrozen(addr, exec, _) => Clean(addr) && Clean(exec)
    case GenesisInside(addr, exec, _) => Clean(addr) && Clean(exec)
    case Issue(exec, _) => Clean(exec)
    case MintTo(addr, _) => Clean(addr)
    case BurnFrom(addr, _) => Clean(addr)
    case GenesisTo(addr, _) => Clean(addr)
  }

  /** A move inside a contract between two spellings of one address. */
  predicate SpellsOne(q: Request) {
    match q
    case PayInside(from, to, _, _) => FormatAddrKey(from) == FormatAddrKey(to)
    case PayFrozen(from, to, _, _) => FormatAddrKey(from) == FormatAddrKey(to)
    case _ => false
  }

  /** Genesis funds that take something away. */
  predicate Negative(q: Request) {
    q.GenesisTo? && q.amount < 0
  }

  /** What one call does: nothing when it is refused, its operation when it succeeds, and no balance below zero. */
  twostate predicate Performs(db: AccountDB, q: Request, r: Outcome)
    reads db
  {
    && (r.Failed? ==> db.store == old(db.store) && db.accounts == old(db.accounts) && db.tidy == old(db.tidy))
    && (r.Done? ==> db.store == Replay(old(db.store), r.kvs))
    && (r.Done? && old(db.tidy) && CleanRequest(q) ==>
          && db.tidy && db.accounts == Apply(old(db.accounts), OperationOf(q))
          && (!SpellsOne(q) ==> Proper(OperationOf(q)))
          && (old(NonNegative(db.accounts)) && !Negative(q) ==> NonNegative(db.accounts)))
  }

  /** Performs one call. */
  method Perform(db: AccountDB, q: Request) returns (r: Outcome)
    requires db.Valid()
    modifies db
    ensures db.Valid() && Performs(db, q, r)
  {
    if q.Pay? {
      r := db.Transfer(q.from, q.to, q.amount);
    } else if q.PayIn? {
      r := db.TransferToExec(q.from, q.exec, q.amount);
    } else if q.PayOut? {
      r := db.TransferWithdraw(q.addr, q.exec, q.amount);
    } else if q.Issue? || q.MintTo? {
      r := PerformCreation(db, q);
    } else if q.BurnFrom? || q.GenesisTo? {
      r := PerformOnMain(db, q);
    } else if q.PayInside? || q.PayFrozen? {
      r := PerformMove(db, q);
    } else if q.Freeze? || q.Activate? {
      r := PerformOnSub(db, q);
    } else {
      r := PerformIssue(db, q);
    }
  }

  /** Performs a call that creates coins on one main account. */
  method PerformCreation(db: AccountDB, q: Request) returns (r: Outcome)
    requires db.Valid() && (q.Issue? || q.MintTo?)
    modifies db
    ensures db.Valid() && Performs(db, q, r)
  {
    match q {
      case Issue(exec, amount) => r := db.ExecIssueCoins(exec, amount);
      case MintTo(addr, amount) => r := db.Mint(addr, amount);
    }
  }

  /** Performs a burn or puts genesis funds on one main account. */
  method PerformOnMain(db: AccountDB, q: Request) returns (r: Outcome)
    requires db.Valid() && (q.BurnFrom? || q.GenesisTo?)
    modifies db
    ensures db.Valid() && Performs(db, q, r)
  {
    match q {
      case BurnFrom(addr, amount) => r := db.Burn(addr, amount);
      case GenesisTo(addr, amount) => r := db.GenesisInit(addr, amount);
    }
  }

  /** Performs a move between two sub-accounts of a contract. */
  method PerformMove(db: AccountDB, q: Request) returns (r: Outcome)
    requires db.Valid() && (q.PayInside? || q.PayFrozen?)
    modifies db
    ensures db.Valid() && Performs(db, q, r)
  {
    match q {
      case PayInside(from, to, exec, amount) => r := db.ExecTransfer(from, to, exec, amount);
      case PayFrozen(from, to, exec, amount) => r := db.ExecTransferFrozen(from, to, exec, amount);
    }
  }

  /** Performs a call that creates coins for a sub-account. */
  method PerformIssue(db: AccountDB, q: Request) returns (r: Outcome)
    requires db.Valid() && (q.IssueFrozen? || q.GenesisInside?)
    modifies db
    ensures db.Valid() && Performs(db, q, r)
  {
    match q {
      case IssueFrozen(addr, exec, amount) => r := db.ExecDepositFrozen(addr, exec, amount);
      case GenesisInside(addr, exec, amount) => r := db.GenesisInitExec(addr, amount, exec);
    }
  }

  /** Performs a call that freezes or activates funds. */
  method PerformOnSub(db: AccountDB, q: Request) returns (r: Outcome)
    requires db.Valid() && (q.Freeze? || q.Activate?)
    modifies db
    ensures db.Valid() && Performs(db, q, r)
  {
    match q {
      case Freeze(addr, exec, amount) => r := db.ExecFrozen(addr, exec, amount);
      case Activate(addr, exec, amount) => r := db.ExecActive(addr, exec, amount);
    }
  }

  ghost predicate AllProper(ops: seq<Operation>) {
    forall i | 0 <= i < |ops| :: Proper(ops[i])
  }

  /** The operations of the calls that succeeded, in order. */
  function Succeeded(calls: seq<Request>, outcomes: seq<Outcome>): seq<Operation>
    requires |outcomes| <= |calls|
  {
    if outcomes == [] then [] else
    var n := |outcomes| - 1;
    Succeeded(calls, outcomes[..n]) + if outcomes[n].Done? then [OperationOf(calls[n])] else []
  }

  /** The pairs written by the calls that succeeded, in order. */
  function Written(outcomes: seq<Outcome>): seq<KV> {
    if outcomes == [] then [] else
    var n := |outcomes| - 1;
    Written(outcomes[..n]) + if outcomes[n].Done? then outcomes[n].kvs else []
  }

  lemma {:induction false} SucceededAreCalls(calls: seq<Request>, outcomes: seq<Outcome>, i: nat)
    requires |outcomes| <= |calls| && i < |Succeeded(calls, outcomes)|
    ensures exists q :: q in calls && Succeeded(calls, outcomes)[i] == OperationOf(q)
  {
    var n := |outcomes| - 1;
    var before := Succeeded(calls, outcomes[..n]);
    if i < |before| {
      SucceededAreCalls(calls, outcomes[..n], i);
    } else {
      assert calls[n] in calls;
    }
  }

  /** The ledger is what the successful operations make of m, and the store what replaying their receipts does. */
  ghost predicate Recorded(calls: seq<Request>, outcomes: seq<Outcome>, m: Accounts, before: Store, now: Accounts,
                           after: Store)
    requires |outcomes| <= |calls|
  {
    && AllProper(Succeeded(calls, outcomes)) && now == RunOf(m, Succeeded(calls, outcomes))
    && after == Replay(before, Written(outcomes))
  }

  lemma OneMore(calls: seq<Request>, outcomes: seq<Outcome>, r: Outcome, m: Accounts, before: Store, was: Accounts,
                prior: Store, now: Accounts, after: Store)
    requires |outcomes| < |calls| && Recorded(calls, outcomes, m, before, was, prior)
    requires r.Done? ==>
               && Proper(OperationOf(calls[|outcomes|]))
               && now == Apply(was, OperationOf(calls[|outcomes|])) && after == Replay(prior, r.kvs)
    requires !r.Done? ==> now == was && after == prior
    ensures Recorded(calls, outcomes + [r], m, before, now, after)
  {
    var ops := Succeeded(calls, outcomes);
    assert (outcomes + [r])[..|outcomes|] == outcomes;
    if r.Done? {
      RunOneMore(m, ops, OperationOf(calls[|outcomes|]));
      ReplayAppend(before, Written(outcomes), r.kvs);
    } else {
      assert ops + [] == ops && Written(outcomes) + [] == Written(outcomes);
    }
  }

  lemma RunOneMore(m: Accounts, ops: seq<Operation>, op: Operation)
    ensures RunOf(m, ops + [op]) == Apply(RunOf(m, ops), op)
    ensures AllProper(ops) && Proper(op) ==> AllProper(ops + [op])
  {
    assert (ops + [op])[..|ops|] == ops;
  }

  /** Performs calls in order, stopping at a panic. Until then, whatever is refused on the way, the ledger is what the
      operations of the calls that succeeded make of it, in order, and the store what replaying their receipts does. The
      supply changes by exactly what was issued, minted, burned and put in at genesis, no balance becomes negative, and
      contracts that no call debits directly stay backed. */
  method PerformAll(db: AccountDB, calls: seq<Request>) returns (outcomes: seq<Outcome>)
    requires db.Valid() && db.tidy && forall q | q in calls :: CleanRequest(q) && !SpellsOne(q)
    modifies db
    ensures |outcomes| <= |calls| && (|outcomes| < |calls| ==> outcomes != [] && outcomes[|outcomes| - 1].Panicked?)
    ensures forall i | 0 <= i < |outcomes| - 1 :: !outcomes[i].Panicked?
    ensures (forall i | 0 <= i < |outcomes| :: !outcomes[i].Panicked?) ==>
              && db.Valid() && db.tidy && AllProper(Succeeded(calls, outcomes))
              && db.accounts == RunOf(old(db.accounts), Succeeded(calls, outcomes))
              && db.store == Replay(old(db.store), Written(outcomes))
              && Supply(db.accounts) == Supply(old(db.accounts)) + CreatedOver(Succeeded(calls, outcomes))
              && (old(NonNegative(db.accounts)) && (forall q | q in calls :: !Negative(q)) ==> NonNegative(db.accounts))
              && StaysBacked(old(db.accounts), db.accounts, calls)
  {
    outcomes := [];
    ghost var start, was := db.accounts, db.store;
    for i := 0 to |calls|
      invariant |outcomes| == i && forall j | 0 <= j < i :: !outcomes[j].Panicked?
      invariant db.Valid() && db.tidy && Recorded(calls, outcomes, start, was, db.accounts, db.store)
      invariant old(NonNegative(db.accounts)) && (forall q | q in calls :: !Negative(q)) ==> NonNegative(db.accounts)
    {
      ghost var m, kept := db.accounts, db.store;
      assert calls[i] in calls;
      var r := Perform(db, calls[i]);
      if r.Panicked? {
        outcomes := outcomes + [r];
        return;
      }
      OneMore(calls, outcomes, r, start, was, m, kept, db.accounts, db.store);
      outcomes := outcomes + [r];
    }
    RunIsBacked(start, calls, outcomes);
  }

  /** Contracts that no call debits directly are backed after if they were before. */
  ghost predicate StaysBacked(before: Accounts, after: Accounts, calls: seq<Request>) {
    forall contracts :: Backed(before, contracts) && (forall q | q in calls :: !Debits(OperationOf(q), contracts)) ==>
      Backed(after, contracts)
  }

  lemma RunIsBacked(m: Accounts, calls: seq<Request>, outcomes: seq<Outcome>)
    requires |outcomes| <= |calls| && AllProper(Succeeded(calls, outcomes))
    ensures var ops := Succeeded(calls, outcomes);
            Supply(RunOf(m, ops)) == Supply(m) + CreatedOver(ops) && StaysBacked(m, RunOf(m, ops), calls)
  {
    var ops := Succeeded(calls, outcomes);
    OperationsKeepLedger(m, ops, {});
    forall contracts | Backed(m, contracts) && (forall q | q in calls :: !Debits(OperationOf(q), contracts))
      ensures Backed(RunOf(m, ops), contracts)
    {
      forall i | 0 <= i < |ops| ensures !Debits(ops[i], contracts) {
        SucceededAreCalls(calls, outcomes, i);
      }
      OperationsKeepLedger(m, ops, contracts);
    }
  }

  // ----- two spellings of one address -----

  lemma IssuedFunds(exec: Address, addr: Address, a: int)
    ensures var m := Apply(map[], IssuedInto(addr, exec, a, false));
            && MainOf(m, exec).balance == a && SubOf(m, exec, addr).balance == a
            && Slack(m, exec.key) == 0
  {
    PostTwo(map[], OnMain(exec, a), OnSub(exec, addr, a, 0));
    FreezeAndIssueSpare(addr, exec, a, a, 0, exec.key);
    PostEffect(map[], IssueEntries(addr, exec, a, a, 0), exec.key);
    assert SubWorth(map[], exec.key) == map[];
  }

  /** A move between two spellings of one address lowers the contract's slack by the whole amount. */
  lemma SpelledMove(m: Accounts, from: Address, to: Address, exec: Address, a: int)
    requires from.key == to.key
    ensures Slack(Apply(m, MovedInside(from, to, exec, a, false)), exec.key) == Slack(m, exec.key) - a
  {
    var e := OnSub(exec, to, a, 0);
    assert EntriesOf(MovedInside(from, to, exec, a, false)) == [e];
    SlackInTwo(e, e, exec.key);
    PostEffect(m, [e], exec.key);
  }

  /** From an empty database, for any two clean spellings of one address: a withdrawal between them panics after the
      debit, which stays. */
  method SpelledWithdrawal(a: string, b: string) returns (db: AccountDB, r: Outcome)
    requires Clean(a) && Clean(b) && a != b && FormatAddrKey(a) == FormatAddrKey(b)
    ensures r.Panicked? && db.Valid() && db.tidy
    ensures SubOf(db.accounts, AddressOf(b), AddressOf(a)).balance == 0
              && MainOf(db.accounts, AddressOf(b)).balance == 5
  {
    db := new AccountDB("coins", "bty", 1, []);
    IssuedFunds(AddressOf(b), AddressOf(a), 5);
    r := db.GenesisInitExec(a, 5, b);
    db.StoredIsLedger(b, b);
    db.StoredIsLedger(a, b);
    ghost var e := OnSub(AddressOf(b), AddressOf(a), -5, 0);
    PostTwo(db.accounts, e, e);
    r := db.TransferWithdraw(a, b, 5);
  }

  /** Likewise a move inside a contract: it creates funds, and the contract is no longer backed. */
  method SpelledMoveInside(a: string, b: string, exec: string) returns (db: AccountDB, r: Outcome)
    requires Clean(a) && Clean(b) && Clean(exec) && a != b && a != exec && FormatAddrKey(a) == FormatAddrKey(b)
    ensures r.Done? && db.Valid() && db.tidy && Slack(db.accounts, AddressOf(exec).key) == -5
  {
    db := new AccountDB("coins", "bty", 1, []);
    IssuedFunds(AddressOf(exec), AddressOf(a), 5);
    r := db.GenesisInitExec(a, 5, exec);
    db.StoredIsLedger(a, exec);
    SpelledMove(db.accounts, AddressOf(a), AddressOf(b), AddressOf(exec), 5);
    r := db.ExecTransfer(a, b, exec, 5);
  }

  /** A database whose withdrawal has panicked. */
  method WithdrawalPanics() returns (db: AccountDB, r: Outcome)
    ensures r.Panicked? && db.Valid() && db.tidy
  {
    SpellingsExist();
    db, r := SpelledWithdrawal(LowSpelling(), HighSpelling());
  }

  /** A database with a contract that is no longer backed. */
  method InsideMoveCreates() returns (db: AccountDB, r: Outcome)
    ensures r.Done? && db.Valid() && db.tidy && exists c :: Slack(db.accounts, c) == -5
  {
    var exec := "c";
    SpellingsExist();
    assert Clean(exec) && |exec| != |LowSpelling()|;
    db, r := SpelledMoveInside(LowSpelling(), HighSpelling(), exec);
  }

  /** The sum, unless it is out of range. */
  function SafeAdd(balance: int, amount: int): (r: Option<int>)
    ensures r.Some? ==> r.value == balance + amount <= MAX_TOKEN_BALANCE && balance >= 0
    ensures balance >= 0 && balance + amount <= MAX_TOKEN_BALANCE ==> r.Some?
  {
    if balance + amount < amount || balance + amount > MAX_TOKEN_BALANCE then None else Some(balance + amount)
  }
}
