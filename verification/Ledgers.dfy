/** The two-level ledger as a value: main accounts, per-contract sub-accounts, and what operations do to the supply and
    to the backing of contracts. */
module Ledgers {
  import opened Addresses

  datatype Account = Account(addr: string, balance: int, frozen: int)

  type Accounts = map<Key, Account>

  // ----- reading and changing one account -----

  function MainOf(m: Accounts, addr: Address): Account {
    if Main(addr.key) in m then m[Main(addr.key)] else Account(addr.text, 0, 0)
  }

  function SubOf(m: Accounts, exec: Address, addr: Address): Account {
    if Sub(exec, addr.key) in m then m[Sub(exec, addr.key)] else Account(addr.text, 0, 0)
  }

  /** The main balance of an address changes by d. */
  function Credit(m: Accounts, addr: Address, d: int): Accounts {
    var a := MainOf(m, addr);
    m[Main(addr.key) := a.(balance := a.balance + d)]
  }

  /** A sub-account's balance changes by d and its frozen funds by f. */
  function CreditSub(m: Accounts, exec: Address, addr: Address, d: int, f: int): Accounts {
    var a := SubOf(m, exec, addr);
    m[Sub(exec, addr.key) := a.(balance := a.balance + d, frozen := a.frozen + f)]
  }

  /** Two sub-accounts read first and then written one after the other: for one address in two spellings the second
      write undoes the first. */
  lemma PairWritten(m: Accounts, exec: Address, from: Address, to: Address, d: int, f: int, e: int)
    ensures var a, b := SubOf(m, exec, from), SubOf(m, exec, to);
            var paid, received := a.(balance := a.balance + d, frozen := a.frozen + f), b.(balance := b.balance + e);
            m[Sub(exec, from.key) := paid][Sub(exec, to.key) := received] ==
                Post(m, InsideEntries(from, to, exec, d, f, e))
  {
    PostTwo(m, OnSub(exec, from, d, f), OnSub(exec, to, e, 0));
    PostTwo(m, OnSub(exec, to, e, 0), OnSub(exec, to, e, 0));
  }

  lemma TransferWritten(m: Accounts, from: Address, to: Address, d: int)
    requires from.key != to.key
    ensures var a, b := MainOf(m, from), MainOf(m, to);
            m[Main(from.key) := a.(balance := a.balance - d)][Main(to.key) := b.(balance := b.balance + d)]
            == Post(m, TransferEntries(from, to, d))
  {
    PostTwo(m, OnMain(from, -d), OnMain(to, d));
  }

  ghost predicate Solvent(m: Accounts, k: Key)
    requires k in m
  {
    m[k].balance >= 0 && m[k].frozen >= 0
  }

  ghost predicate NonNegative(m: Accounts) {
    forall k {:trigger Solvent(m, k)} | k in m :: Solvent(m, k)
  }

  lemma LoadedIsSolvent(m: Accounts, exec: Address, addr: Address)
    requires NonNegative(m)
    ensures MainOf(m, addr).balance >= 0 && MainOf(m, addr).frozen >= 0
    ensures SubOf(m, exec, addr).balance >= 0 && SubOf(m, exec, addr).frozen >= 0
  {
    assert Main(addr.key) in m ==> Solvent(m, Main(addr.key));
    assert Sub(exec, addr.key) in m ==> Solvent(m, Sub(exec, addr.key));
  }

  /** Changing one account keeps all balances non-negative exactly when it keeps that account's so. */
  lemma PostOneNonNegativeIff(m: Accounts, e: Entry)
    requires NonNegative(m)
    ensures NonNegative(PostOne(m, e)) <==>
            match e
            case OnMain(addr, d) => MainOf(m, addr).balance + d >= 0
            case OnSub(exec, addr, d, f) =>
              SubOf(m, exec, addr).balance + d >= 0 && SubOf(m, exec, addr).frozen + f >= 0
  {
    var m', k := PostOne(m, e), if e.OnMain? then Main(e.addr.key) else Sub(e.exec, e.addr.key);
    LoadedIsSolvent(m, e.addr, e.addr);
    assert k in m' && (NonNegative(m') ==> Solvent(m', k));
    if Solvent(m', k) {
      forall l | l in m' ensures Solvent(m', l) {
        assert l != k ==> Solvent(m, l);
      }
    }
  }

  // ----- sums -----

  ghost function Sum(w: map<Key, int>): int
    decreases |w|
  {
    if w == map[] then 0 else
    var k :| k in w;
    w[k] + Sum(w - {k})
  }

  lemma {:induction false} SumWithout(w: map<Key, int>, k: Key)
    requires k in w
    ensures Sum(w) == w[k] + Sum(w - {k})
    decreases |w|
  {
    var l :| l in w && Sum(w) == w[l] + Sum(w - {l});
    if l != k {
      SumWithout(w - {l}, k);
      SumWithout(w - {k}, l);
      assert w - {l} - {k} == w - {k} - {l};
    }
  }

  lemma SumWith(w: map<Key, int>, k: Key, v: int)
    ensures Sum(w[k := v]) == Sum(w) + v - if k in w then w[k] else 0
  {
    SumWithout(w[k := v], k);
    assert w[k := v] - {k} == w - {k};
    if k in w { SumWithout(w, k); } else { assert w - {k} == w; }
  }

  lemma {:induction false} EntryWithinSum(w: map<Key, int>, k: Key)
    requires k in w && forall l | l in w :: w[l] >= 0
    ensures w[k] <= Sum(w)
  {
    SumWithout(w, k);
    SumNonNegative(w - {k});
  }

  lemma {:induction false} SumNonNegative(w: map<Key, int>)
    requires forall l | l in w :: w[l] >= 0
    ensures Sum(w) >= 0
    decreases |w|
  {
    if w != map[] {
      var k :| k in w && Sum(w) == w[k] + Sum(w - {k});
      SumNonNegative(w - {k});
    }
  }

  // ----- supply and backing -----

  ghost function MainWorth(m: Accounts): map<Key, int> {
    map k | k in m && k.Main? :: m[k].balance
  }

  /** The funds the sub-accounts of a contract hold, frozen or not; c is the contract's key form. */
  ghost function SubWorth(m: Accounts, c: string): map<Key, int> {
    map k | k in m && k.Sub? && k.exec.key == c :: m[k].balance + m[k].frozen
  }

  /** All coins: the sum of the main balances. */
  ghost function Supply(m: Accounts): int {
    Sum(MainWorth(m))
  }

  ghost function MainBalance(m: Accounts, c: string): int {
    if Main(c) in m then m[Main(c)].balance else 0
  }

  /** How far a contract's main balance exceeds what its sub-accounts hold. */
  ghost function Slack(m: Accounts, c: string): int {
    MainBalance(m, c) - Sum(SubWorth(m, c))
  }

  lemma MainSumAfter(m: Accounts, k: Key, a: Account)
    ensures Supply(m[k := a]) == Supply(m) + if k.Main? then a.balance - MainBalance(m, k.addr) else 0
  {
    if k.Main? {
      assert MainWorth(m[k := a]) == MainWorth(m)[k := a.balance];
      SumWith(MainWorth(m), k, a.balance);
    } else {
      assert MainWorth(m[k := a]) == MainWorth(m);
    }
  }

  function Holding(m: Accounts, k: Key): int {
    if k in m then m[k].balance + m[k].frozen else 0
  }

  lemma SubSumAfter(m: Accounts, k: Key, a: Account, c: string)
    ensures Sum(SubWorth(m[k := a], c)) == Sum(SubWorth(m, c)) +
            if k.Sub? && k.exec.key == c then a.balance + a.frozen - Holding(m, k) else 0
  {
    if k.Sub? && k.exec.key == c {
      assert SubWorth(m[k := a], c) == SubWorth(m, c)[k := a.balance + a.frozen];
      SumWith(SubWorth(m, c), k, a.balance + a.frozen);
    } else {
      assert SubWorth(m[k := a], c) == SubWorth(m, c);
    }
  }

  lemma SlackAfterMain(m: Accounts, c: string, a: Account, e: string)
    ensures Slack(m[Main(c) := a], e) == Slack(m, e) + if e == c then a.balance - MainBalance(m, c) else 0
  {
    SubSumAfter(m, Main(c), a, e);
  }

  lemma SlackAfterSub(m: Accounts, k: Key, a: Account, e: string)
    requires k.Sub?
    ensures Slack(m[k := a], e) == Slack(m, e) - if e == k.exec.key then a.balance + a.frozen - Holding(m, k) else 0
  {
    SubSumAfter(m, k, a, e);
  }

  // ----- postings -----

  /** One entry of an operation: a main balance changes by d, or a sub-account's balance by d and its frozen funds by
      f. */
  datatype Entry =
    | OnMain(addr: Address, d: int)
    | OnSub(exec: Address, addr: Address, d: int, f: int)

  function PostOne(m: Accounts, e: Entry): Accounts {
    match e
    case OnMain(addr, d) => Credit(m, addr, d)
    case OnSub(exec, addr, d, f) => CreditSub(m, exec, addr, d, f)
  }

  /** The ledger after the entries, in order. */
  function Post(m: Accounts, entries: seq<Entry>): Accounts {
    if entries == [] then m else PostOne(Post(m, entries[..|entries| - 1]), entries[|entries| - 1])
  }

  lemma PostTwo(m: Accounts, a: Entry, b: Entry)
    ensures Post(m, [a]) == PostOne(m, a) && Post(m, [a, b]) == PostOne(PostOne(m, a), b)
  {
    assert [a][..0] == [] && [a, b][..1] == [a];
  }

  lemma {:induction false} PostAppend(m: Accounts, a: seq<Entry>, b: seq<Entry>)
    ensures Post(m, a + b) == Post(Post(m, a), b)
  {
    if b == [] {
      assert a + b == a;
    } else {
      var n := |b| - 1;
      assert (a + b)[..|a + b| - 1] == a + b[..n];
      PostAppend(m, a, b[..n]);
    }
  }

  /** What an entry adds to the supply. */
  function SupplyOf(e: Entry): int {
    if e.OnMain? then e.d else 0
  }

  /** What an entry adds to a contract's slack. */
  function SlackOf(e: Entry, c: string): int {
    match e
    case OnMain(addr, d) => if addr.key == c then d else 0
    case OnSub(exec, _, d, f) => if exec.key == c then -(d + f) else 0
  }

  function SupplyIn(entries: seq<Entry>): int {
    if entries == [] then 0 else SupplyIn(entries[..|entries| - 1]) + SupplyOf(entries[|entries| - 1])
  }

  function SlackIn(entries: seq<Entry>, c: string): int {
    if entries == [] then 0 else SlackIn(entries[..|entries| - 1], c) + SlackOf(entries[|entries| - 1], c)
  }

  lemma MainEntryEffect(m: Accounts, addr: Address, d: int, c: string)
    ensures Supply(Credit(m, addr, d)) == Supply(m) + d
    ensures Slack(Credit(m, addr, d), c) == Slack(m, c) + if addr.key == c then d else 0
  {
    var a := MainOf(m, addr);
    var b := a.(balance := a.balance + d);
    MainSumAfter(m, Main(addr.key), b);
    SlackAfterMain(m, addr.key, b, c);
    assert MainBalance(m, addr.key) == a.balance;
  }

  lemma SubEntryEffect(m: Accounts, exec: Address, addr: Address, d: int, f: int, c: string)
    ensures Supply(CreditSub(m, exec, addr, d, f)) == Supply(m)
    ensures Slack(CreditSub(m, exec, addr, d, f), c) == Slack(m, c) - if exec.key == c then d + f else 0
  {
    var a := SubOf(m, exec, addr);
    var b := a.(balance := a.balance + d, frozen := a.frozen + f);
    MainSumAfter(m, Sub(exec, addr.key), b);
    SlackAfterSub(m, Sub(exec, addr.key), b, c);
  }

  lemma PostOneEffect(m: Accounts, e: Entry, c: string)
    ensures Supply(PostOne(m, e)) == Supply(m) + SupplyOf(e)
    ensures Slack(PostOne(m, e), c) == Slack(m, c) + SlackOf(e, c)
  {
    match e {
      case OnMain(addr, d) => MainEntryEffect(m, addr, d, c);
      case OnSub(exec, addr, d, f) => SubEntryEffect(m, exec, addr, d, f, c);
    }
  }

  /** Postings change the supply and each contract's slack by exactly what their entries say. */
  lemma {:induction false} PostEffect(m: Accounts, entries: seq<Entry>, c: string)
    ensures Supply(Post(m, entries)) == Supply(m) + SupplyIn(entries)
    ensures Slack(Post(m, entries), c) == Slack(m, c) + SlackIn(entries, c)
  {
    if entries != [] {
      var n := |entries| - 1;
      PostEffect(m, entries[..n], c);
      PostOneEffect(Post(m, entries[..n]), entries[n], c);
    }
  }

  // ----- the operations' entries -----

  function TransferEntries(from: Address, to: Address, a: int): seq<Entry> {
    [OnMain(from, -a), OnMain(to, a)]
  }

  function ToExecEntries(from: Address, to: Address, a: int): seq<Entry> {
    [OnMain(from, -a), OnMain(to, a), OnSub(to, from, a, 0)]
  }

  function WithdrawEntries(from: Address, to: Address, a: int): seq<Entry> {
    [OnSub(to, from, -a, 0), OnMain(to, -a), OnMain(from, a)]
  }

  /** Both sub-accounts are read before either is written, so for two spellings of one address only the second entry
      remains; d and f are what the payer's balance and frozen funds change by. */
  function InsideEntries(from: Address, to: Address, exec: Address, d: int, f: int, a: int): seq<Entry> {
    if from.key == to.key then [OnSub(exec, to, a, 0)] else [OnSub(exec, from, d, f), OnSub(exec, to, a, 0)]
  }

  function IssueEntries(addr: Address, exec: Address, a: int, d: int, f: int): seq<Entry> {
    [OnMain(exec, a), OnSub(exec, addr, d, f)]
  }

  /** A deposit into a contract is a transfer and a deposit; a withdrawal is a debit and a transfer back. */
  lemma CompositesCompose(m: Accounts, from: Address, to: Address, a: int)
    ensures Apply(m, MovedIn(from, to, a)) == Post(Apply(m, Transferred(from, to, a)), [OnSub(to, from, a, 0)])
    ensures Apply(m, MovedOut(from, to, a)) == Apply(Post(m, [OnSub(to, from, -a, 0)]), Transferred(to, from, a))
  {
    assert ToExecEntries(from, to, a) == TransferEntries(from, to, a) + [OnSub(to, from, a, 0)];
    assert WithdrawEntries(from, to, a) == [OnSub(to, from, -a, 0)] + TransferEntries(to, from, a);
    PostAppend(m, TransferEntries(from, to, a), [OnSub(to, from, a, 0)]);
    PostAppend(m, [OnSub(to, from, -a, 0)], TransferEntries(to, from, a));
  }

  lemma IssueComposes(m: Accounts, addr: Address, exec: Address, a: int, frozen: bool)
    ensures Apply(m, IssuedInto(addr, exec, a, frozen)) ==
            Post(Apply(m, Created(exec, a)), [OnSub(exec, addr, if frozen then 0 else a, if frozen then a else 0)])
  {
    var d, f := if frozen then 0 else a, if frozen then a else 0;
    assert IssueEntries(addr, exec, a, d, f) == [OnMain(exec, a)] + [OnSub(exec, addr, d, f)];
    PostAppend(m, [OnMain(exec, a)], [OnSub(exec, addr, d, f)]);
  }

  /** Every contract's main balance covers its sub-accounts. */
  ghost predicate Backed(m: Accounts, contracts: set<string>) {
    forall c {:trigger Slack(m, c)} | c in contracts :: Slack(m, c) >= 0
  }

  /** No contract's slack is lowered. */
  ghost predicate Spares(entries: seq<Entry>, contracts: set<string>) {
    forall c {:trigger SlackIn(entries, c)} | c in contracts :: SlackIn(entries, c) >= 0
  }

  lemma SlackInTwo(a: Entry, b: Entry, c: string)
    ensures SlackIn([a], c) == SlackOf(a, c) && SlackIn([a, b], c) == SlackOf(a, c) + SlackOf(b, c)
    ensures SupplyIn([a]) == SupplyOf(a) && SupplyIn([a, b]) == SupplyOf(a) + SupplyOf(b)
  {
    assert [a][..0] == [] && [a, b][..1] == [a];
  }

  lemma SlackInThree(a: Entry, b: Entry, e: Entry, c: string)
    ensures SlackIn([a, b, e], c) == SlackOf(a, c) + SlackOf(b, c) + SlackOf(e, c)
    ensures SupplyIn([a, b, e]) == SupplyOf(a) + SupplyOf(b) + SupplyOf(e)
  {
    SlackInTwo(a, b, c);
    assert [a, b, e][..2] == [a, b];
  }

  /** Transfers, deposits into contracts and withdrawals create no coins. A transfer, alone or into a contract, spares
      every contract exactly when its payer is not one of them; a withdrawal spares every contract. */
  lemma TransfersSpareIff(from: Address, to: Address, a: int, contracts: set<string>)
    requires a > 0 && from.key != to.key
    ensures SupplyIn(TransferEntries(from, to, a)) == 0
    ensures SupplyIn(ToExecEntries(from, to, a)) == 0 && SupplyIn(WithdrawEntries(from, to, a)) == 0
    ensures Spares(TransferEntries(from, to, a), contracts) <==> from.key !in contracts
    ensures Spares(ToExecEntries(from, to, a), contracts) <==> from.key !in contracts
    ensures Spares(WithdrawEntries(from, to, a), contracts)
  {
    forall c
      ensures SlackIn(TransferEntries(from, to, a), c) == if c == from.key then -a else if c == to.key then a else 0
      ensures SlackIn(ToExecEntries(from, to, a), c) == if c == from.key then -a else 0
      ensures SlackIn(WithdrawEntries(from, to, a), c) == if c == from.key then a else 0
      ensures SupplyIn(TransferEntries(from, to, a)) == SupplyIn(ToExecEntries(from, to, a)) ==
                SupplyIn(WithdrawEntries(from, to, a)) == 0
    {
      SlackInTwo(OnMain(from, -a), OnMain(to, a), c);
      SlackInThree(OnMain(from, -a), OnMain(to, a), OnSub(to, from, a, 0), c);
      SlackInThree(OnSub(to, from, -a, 0), OnMain(to, -a), OnMain(from, a), c);
    }
    assert SlackIn(TransferEntries(from, to, a), from.key) == -a;
    assert SlackIn(ToExecEntries(from, to, a), from.key) == -a;
    assert SupplyIn(TransferEntries(from, to, a)) == 0 by { SlackInTwo(OnMain(from, -a), OnMain(to, a), from.key); }
  }

  /** A move inside a contract, or out of frozen funds, keeps the contract backed exactly when the two addresses have
      different keys; its slack then does not move at all. */
  lemma InsideSparesIff(from: Address, to: Address, exec: Address, d: int, f: int, a: int, contracts: set<string>)
    requires a > 0 && d + f == -a && exec.key in contracts
    ensures SupplyIn(InsideEntries(from, to, exec, d, f, a)) == 0
    ensures Spares(InsideEntries(from, to, exec, d, f, a), contracts) <==> from.key != to.key
    ensures from.key != to.key ==> forall c :: SlackIn(InsideEntries(from, to, exec, d, f, a), c) == 0
  {
    var entries := InsideEntries(from, to, exec, d, f, a);
    var first, second := OnSub(exec, from, d, f), OnSub(exec, to, a, 0);
    SlackInTwo(first, second, exec.key);
    SlackInTwo(second, second, exec.key);
    if from.key == to.key {
      assert SlackIn(entries, exec.key) == -a;
    } else {
      forall c ensures SlackIn(entries, c) == 0 {
        SlackInTwo(first, second, c);
      }
    }
  }

  /** Freezing moves nothing; issuing into a sub-account creates the amount and moves no slack. */
  lemma FreezeAndIssueSpare(addr: Address, exec: Address, a: int, d: int, f: int, c: string)
    requires d + f == a
    ensures SlackIn([OnSub(exec, addr, a, -a)], c) == 0 && SupplyIn([OnSub(exec, addr, a, -a)]) == 0
    ensures SlackIn(IssueEntries(addr, exec, a, d, f), c) == 0 && SupplyIn(IssueEntries(addr, exec, a, d, f)) == a
  {
    SlackInTwo(OnSub(exec, addr, a, -a), OnSub(exec, addr, a, -a), c);
    SlackInTwo(OnMain(exec, a), OnSub(exec, addr, d, f), c);
  }

  /** A funded transfer leaves no balance negative. */
  lemma TransferKeepsNonNegative(m: Accounts, from: Address, to: Address, a: int)
    requires NonNegative(m) && a > 0 && from.key != to.key && MainOf(m, from).balance >= a
    ensures NonNegative(Post(m, TransferEntries(from, to, a)))
  {
    var n := Credit(m, from, -a);
    PostOneNonNegativeIff(m, OnMain(from, -a));
    PostOneNonNegativeIff(n, OnMain(to, a));
    LoadedIsSolvent(n, from, to);
    PostTwo(m, OnMain(from, -a), OnMain(to, a));
  }

  /** A funded move inside a contract leaves no sub-account negative. */
  lemma InsideKeepsNonNegative(m: Accounts, from: Address, to: Address, exec: Address, d: int, f: int, a: int)
    requires NonNegative(m) && a > 0 && SubOf(m, exec, from).balance + d >= 0 && SubOf(m, exec, from).frozen + f >= 0
    ensures NonNegative(Post(m, InsideEntries(from, to, exec, d, f, a)))
  {
    var paid, received := OnSub(exec, from, d, f), OnSub(exec, to, a, 0);
    PostOneNonNegativeIff(m, received);
    PostOneNonNegativeIff(m, paid);
    LoadedIsSolvent(m, exec, to);
    PostTwo(m, received, received);
    if from.key != to.key {
      PostOneNonNegativeIff(PostOne(m, paid), received);
      assert SubOf(PostOne(m, paid), exec, to) == SubOf(m, exec, to);
      PostTwo(m, paid, received);
    }
  }

  /** What a move between two sub-accounts writes, and when it leaves no balance negative. */
  lemma PairEffect(m: Accounts, n: Accounts, exec: Address, from: Address, to: Address, d: int, f: int, e: int)
    requires var a, b := SubOf(m, exec, from), SubOf(m, exec, to);
             var paid, received := a.(balance := a.balance + d, frozen := a.frozen + f), b.(balance := b.balance + e);
             n == m[Sub(exec, from.key) := paid][Sub(exec, to.key) := received]
    ensures n == Post(m, InsideEntries(from, to, exec, d, f, e))
    ensures NonNegative(m) && e > 0 && SubOf(m, exec, from).balance + d >= 0 && SubOf(m, exec, from).frozen + f >= 0 ==>
              NonNegative(n)
  {
    PairWritten(m, exec, from, to, d, f, e);
    var a := SubOf(m, exec, from);
    if NonNegative(m) && e > 0 && a.balance + d >= 0 && a.frozen + f >= 0 {
      InsideKeepsNonNegative(m, from, to, exec, d, f, e);
    }
  }

  /** What a transfer writes: two different accounts, and no balance negative. */
  lemma TransferEffect(m: Accounts, n: Accounts, from: Address, to: Address, a: Account, b: Account, d: int)
    requires d > 0 && a == MainOf(m, from) && b == MainOf(m, to) && a.balance >= d && a.addr != b.addr
    requires n == m[Main(from.key) := a.(balance := a.balance - d)][Main(to.key) := b.(balance := b.balance + d)]
    ensures from.key != to.key && n == Apply(m, Transferred(from, to, d)) && (NonNegative(m) ==> NonNegative(n))
  {
    TransferWritten(m, from, to, d);
    if NonNegative(m) { TransferKeepsNonNegative(m, from, to, d); }
  }

  // ----- runs of operations -----

  /** A ledger operation that succeeded, with what it moved. */
  datatype Operation =
    | Transferred(from: Address, to: Address, a: int)
    | MovedIn(from: Address, exec: Address, a: int)
    | MovedOut(addr: Address, exec: Address, a: int)
    | MovedInside(from: Address, to: Address, exec: Address, a: int, frozen: bool)
    | FrozeOrActivated(addr: Address, exec: Address, d: int)
    | IssuedInto(addr: Address, exec: Address, a: int, frozen: bool)
    | Created(addr: Address, a: int)  // mint, plain genesis or issue; negative for a burn

  function EntriesOf(op: Operation): seq<Entry> {
    match op
    case Transferred(from, to, a) => TransferEntries(from, to, a)
    case MovedIn(from, exec, a) => ToExecEntries(from, exec, a)
    case MovedOut(addr, exec, a) => WithdrawEntries(addr, exec, a)
    case MovedInside(from, to, exec, a, frozen) => InsideEntries(from, to, exec, if frozen then 0 else -a, if frozen
        then -a else 0, a)
    case FrozeOrActivated(addr, exec, d) => [OnSub(exec, addr, d, -d)]
    case IssuedInto(addr, exec, a, frozen) => IssueEntries(addr, exec, a, if frozen then 0 else a, if frozen then a
        else 0)
    case Created(addr, a) => [OnMain(addr, a)]
  }

  /** The ledger after an operation. */
  function Apply(m: Accounts, op: Operation): Accounts {
    Post(m, EntriesOf(op))
  }

  /** What a move between two sub-accounts writes, in terms of the operation. */
  lemma MoveEffect(m: Accounts, n: Accounts, exec: Address, from: Address, to: Address, payer: Account,
                   payee: Account, a: int, frozen: bool)
    requires payer == SubOf(m, exec, from) && payee == SubOf(m, exec, to)
    requires var paid := if frozen then payer.(frozen := payer.frozen - a) else payer.(balance := payer.balance - a);
             n == m[Sub(exec, from.key) := paid][Sub(exec, to.key) := payee.(balance := payee.balance + a)]
    ensures n == Apply(m, MovedInside(from, to, exec, a, frozen))
    ensures NonNegative(m) && a > 0 && (if frozen then payer.frozen else payer.balance) >= a ==> NonNegative(n)
  {
    var d, f := if frozen then 0 else -a, if frozen then -a else 0;
    assert payer.(balance := payer.balance + d, frozen := payer.frozen + f)
      == if frozen then payer.(frozen := payer.frozen - a) else payer.(balance := payer.balance - a);
    PairEffect(m, n, exec, from, to, d, f, a);
    LoadedIsSolventIf(m, exec, from);
  }

  /** What changing one main balance writes, and when it leaves no balance negative. */
  lemma CreateEffect(m: Accounts, n: Accounts, addr: Address, d: int)
    requires n == m[Main(addr.key) := MainOf(m, addr).(balance := MainOf(m, addr).balance + d)]
    ensures n == Apply(m, Created(addr, d))
    ensures NonNegative(m) ==> (NonNegative(n) <==> MainOf(m, addr).balance + d >= 0)
  {
    var e := OnMain(addr, d);
    PostTwo(m, e, e);
    if NonNegative(m) { PostOneNonNegativeIff(m, e); }
  }

  /** What changing one sub-account writes, and when it leaves no balance negative. */
  lemma AdjustEffect(m: Accounts, n: Accounts, exec: Address, addr: Address, d: int, f: int)
    requires var a := SubOf(m, exec, addr);
             n == m[Sub(exec, addr.key) := a.(balance := a.balance + d, frozen := a.frozen + f)]
    ensures n == Post(m, [OnSub(exec, addr, d, f)])
    ensures f == -d ==> n == Apply(m, FrozeOrActivated(addr, exec, d))
    ensures NonNegative(m) ==>
              (NonNegative(n) <==> SubOf(m, exec, addr).balance + d >= 0 && SubOf(m, exec, addr).frozen + f >= 0)
  {
    var e := OnSub(exec, addr, d, f);
    PostTwo(m, e, e);
    if NonNegative(m) { PostOneNonNegativeIff(m, e); }
  }

  lemma LoadedIsSolventIf(m: Accounts, exec: Address, addr: Address)
    ensures NonNegative(m) ==> SubOf(m, exec, addr).balance >= 0 && SubOf(m, exec, addr).frozen >= 0
  {
    if NonNegative(m) { LoadedIsSolvent(m, exec, addr); }
  }

  /** What holds of every operation that succeeds between addresses of different keys. */
  predicate Proper(op: Operation) {
    match op
    case Transferred(from, to, a) => a > 0 && from.key != to.key
    case MovedIn(from, exec, a) => a > 0 && from.key != exec.key
    case MovedOut(addr, exec, a) => a > 0 && addr.key != exec.key
    case MovedInside(from, to, exec, a, _) => a > 0 && from.key != to.key
    case _ => true
  }

  /** The operation takes main funds straight from one of the contracts: it pays from it or burns there. */
  predicate Debits(op: Operation, contracts: set<string>) {
    match op
    case Transferred(from, _, _) => from.key in contracts
    case MovedIn(from, _, _) => from.key in contracts
    case Created(addr, a) => a < 0 && addr.key in contracts
    case _ => false
  }

  function CreatedBy(op: Operation): int {
    match op
    case IssuedInto(_, _, a, _) => a
    case Created(_, a) => a
    case _ => 0
  }

  /** A proper operation leaves every contract as well backed as before exactly when it debits none of them, and it
      creates coins only by issue, mint, burn and genesis. */
  lemma ProperOperation(op: Operation, contracts: set<string>)
    requires Proper(op)
    ensures Spares(EntriesOf(op), contracts) <==> !Debits(op, contracts)
    ensures SupplyIn(EntriesOf(op)) == CreatedBy(op)
  {
    match op {
      case Transferred(from, to, a) => TransfersSpareIff(from, to, a, contracts);
      case MovedIn(from, exec, a) => TransfersSpareIff(from, exec, a, contracts);
      case MovedOut(addr, exec, a) => TransfersSpareIff(addr, exec, a, contracts);
      case MovedInside(from, to, exec, a, frozen) =>
        InsideSparesIff(from, to, exec, if frozen then 0 else -a, if frozen then -a else 0, a, contracts + {exec.key});
      case FrozeOrActivated(addr, exec, d) =>
        forall c ensures SlackIn(EntriesOf(op), c) == SupplyIn(EntriesOf(op)) == 0 {
          FreezeAndIssueSpare(addr, exec, d, d, 0, c);
        }
        assert SlackIn(EntriesOf(op), "") == 0;
      case IssuedInto(addr, exec, a, frozen) =>
        forall c ensures SlackIn(EntriesOf(op), c) == 0 && SupplyIn(EntriesOf(op)) == a {
          FreezeAndIssueSpare(addr, exec, a, if frozen then 0 else a, if frozen then a else 0, c);
        }
        assert SlackIn(EntriesOf(op), "") == 0;
      case Created(addr, a) =>
        forall c ensures SlackIn([OnMain(addr, a)], c) == (if addr.key == c then a else 0)
            && SupplyIn([OnMain(addr, a)]) == a {
          SlackInTwo(OnMain(addr, a), OnMain(addr, a), c);
        }
        assert SlackIn([OnMain(addr, a)], addr.key) == a;
    }
  }

  ghost function BalanceAt(m: Accounts, k: Key): int {
    if k in m then m[k].balance else 0
  }

  ghost function FrozenAt(m: Accounts, k: Key): int {
    if k in m then m[k].frozen else 0
  }

  /** n is m with these changes to balances and these to frozen funds, and no other. */
  ghost predicate Changes(m: Accounts, n: Accounts, balances: map<Key, int>, frozen: map<Key, int>) {
    forall k {:trigger BalanceAt(n, k)} {:trigger FrozenAt(n, k)} ::
      && BalanceAt(n, k) == BalanceAt(m, k) + (if k in balances then balances[k] else 0)
      && FrozenAt(n, k) == FrozenAt(m, k) + (if k in frozen then frozen[k] else 0)
  }

  /** What each operation does to every account. */
  lemma OperationEffect(m: Accounts, op: Operation)
    requires Proper(op)
    ensures var n := Apply(m, op);
            match op
            case Transferred(from, to, a) => Changes(m, n, map[Main(from.key) := -a, Main(to.key) := a], map[])
            case MovedIn(from, exec, a) =>
              Changes(m, n, map[Main(from.key) := -a, Main(exec.key) := a, Sub(exec, from.key) := a], map[])
            case MovedOut(addr, exec, a) =>
              Changes(m, n, map[Sub(exec, addr.key) := -a, Main(exec.key) := -a, Main(addr.key) := a], map[])
            case MovedInside(from, to, exec, a, frozen) =>
              if frozen then Changes(m, n, map[Sub(exec, to.key) := a], map[Sub(exec, from.key) := -a])
              else Changes(m, n, map[Sub(exec, from.key) := -a, Sub(exec, to.key) := a], map[])
            case FrozeOrActivated(addr, exec, d) =>
              Changes(m, n, map[Sub(exec, addr.key) := d], map[Sub(exec, addr.key) := -d])
            case IssuedInto(addr, exec, a, frozen) =>
              if frozen then Changes(m, n, map[Main(exec.key) := a], map[Sub(exec, addr.key) := a])
              else Changes(m, n, map[Main(exec.key) := a, Sub(exec, addr.key) := a], map[])
            case Created(addr, a) => Changes(m, n, map[Main(addr.key) := a], map[])
  {
    match op {
      case Transferred(from, to, a) => TwoChange(m, OnMain(from, -a), OnMain(to, a));
      case MovedIn(from, exec, a) => ThreeChange(m, OnMain(from, -a), OnMain(exec, a), OnSub(exec, from, a, 0));
      case MovedOut(addr, exec, a) => ThreeChange(m, OnSub(exec, addr, -a, 0), OnMain(exec, -a), OnMain(addr, a));
      case MovedInside(from, to, exec, a, frozen) =>
        TwoChange(m, OnSub(exec, from, if frozen then 0 else -a, if frozen then -a else 0), OnSub(exec, to, a, 0));
      case FrozeOrActivated(addr, exec, d) => OneChanges(m, OnSub(exec, addr, d, -d));
      case IssuedInto(addr, exec, a, frozen) =>
        TwoChange(m, OnMain(exec, a), OnSub(exec, addr, if frozen then 0 else a, if frozen then a else 0));
      case Created(addr, a) => OneChanges(m, OnMain(addr, a));
    }
  }

  function KeyOf(e: Entry): Key {
    match e
    case OnMain(addr, _) => Main(addr.key)
    case OnSub(exec, addr, _, _) => Sub(exec, addr.key)
  }

  function FrozenOf(e: Entry): int {
    if e.OnSub? then e.f else 0
  }

  lemma OneChanges(m: Accounts, e: Entry)
    ensures Post(m, [e]) == PostOne(m, e)
    ensures Changes(m, PostOne(m, e), map[KeyOf(e) := e.d], map[KeyOf(e) := FrozenOf(e)])
  {
    PostTwo(m, e, e);
  }

  lemma TwoChange(m: Accounts, a: Entry, b: Entry)
    requires KeyOf(a) != KeyOf(b)
    ensures Changes(m, Post(m, [a, b]), map[KeyOf(a) := a.d, KeyOf(b) := b.d],
                    map[KeyOf(a) := FrozenOf(a), KeyOf(b) := FrozenOf(b)])
  {
    PostTwo(m, a, b);
    OneChanges(m, a);
    OneChanges(PostOne(m, a), b);
  }

  lemma ThreeChange(m: Accounts, a: Entry, b: Entry, c: Entry)
    requires KeyOf(a) != KeyOf(b) && KeyOf(a) != KeyOf(c) && KeyOf(b) != KeyOf(c)
    ensures Changes(m, Post(m, [a, b, c]), map[KeyOf(a) := a.d, KeyOf(b) := b.d, KeyOf(c) := c.d],
                    map[KeyOf(a) := FrozenOf(a), KeyOf(b) := FrozenOf(b), KeyOf(c) := FrozenOf(c)])
  {
    TwoChange(m, a, b);
    assert [a, b, c][..2] == [a, b];
    OneChanges(Post(m, [a, b]), c);
  }

  ghost function RunOf(m: Accounts, ops: seq<Operation>): Accounts {
    if ops == [] then m else Post(RunOf(m, ops[..|ops| - 1]), EntriesOf(ops[|ops| - 1]))
  }

  function CreatedOver(ops: seq<Operation>): int {
    if ops == [] then 0 else CreatedOver(ops[..|ops| - 1]) + CreatedBy(ops[|ops| - 1])
  }

  /** Over any run of proper operations that never debit a contract directly, every contract stays backed; over any run
      of proper operations the supply changes by exactly what was issued, minted, burned and put in at genesis. */
  lemma {:induction false} OperationsKeepLedger(m: Accounts, ops: seq<Operation>, contracts: set<string>)
    requires forall i | 0 <= i < |ops| :: Proper(ops[i])
    ensures Supply(RunOf(m, ops)) == Supply(m) + CreatedOver(ops)
    ensures Backed(m, contracts) && (forall i | 0 <= i < |ops| :: !Debits(ops[i], contracts)) ==>
              Backed(RunOf(m, ops), contracts)
  {
    if ops != [] {
      var n := |ops| - 1;
      var before := RunOf(m, ops[..n]);
      OperationsKeepLedger(m, ops[..n], contracts);
      ProperOperation(ops[n], contracts);
      OneKeepsLedger(before, EntriesOf(ops[n]), contracts);
    }
  }

  /** Postings that spare the contracts keep them backed. */
  lemma OneKeepsLedger(m: Accounts, entries: seq<Entry>, contracts: set<string>)
    ensures Supply(Post(m, entries)) == Supply(m) + SupplyIn(entries)
    ensures Backed(m, contracts) && Spares(entries, contracts) ==> Backed(Post(m, entries), contracts)
  {
    PostEffect(m, entries, "");
    if Backed(m, contracts) && Spares(entries, contracts) {
      forall c | c in contracts ensures Slack(Post(m, entries), c) >= 0 {
        PostEffect(m, entries, c);
        assert Slack(m, c) >= 0 && SlackIn(entries, c) >= 0;
      }
    }
  }

  /** A backed contract can pay out whatever one of its sub-accounts holds. */
  lemma WithdrawalIsCovered(m: Accounts, contracts: set<string>, exec: Address, addr: Address)
    requires Backed(m, contracts) && NonNegative(m) && exec.key in contracts
    ensures SubOf(m, exec, addr).balance <= MainOf(m, exec).balance
  {
    var c, k := exec.key, Sub(exec, addr.key);
    assert Slack(m, c) >= 0;
    forall l | l in SubWorth(m, c) ensures SubWorth(m, c)[l] >= 0 {
      assert Solvent(m, l);
    }
    LoadedIsSolvent(m, exec, addr);
    SumNonNegative(SubWorth(m, c));
    if k in m { EntryWithinSum(SubWorth(m, c), k); }
  }
}
