/** The certificate repositories, their caches, the serialised management updates against the roots on chain, and the
    authentications that run beside them. A step is what runs between two awaits. */
module Repositories {
  import opened Wrappers
  import opened Trie

  const MANAGEMENT_DOMAIN := "management"

  predicate NoColon(s: string) {
    ':' !in s
  }

  function CacheKey(domain: string, key: string): string {
    domain + ":" + key
  }

  /** A cache key names one domain and one certificate key. */
  lemma {:induction false} CacheKeyIsInjective(d: string, k: string, e: string, l: string)
    requires NoColon(d) && NoColon(e) && CacheKey(d, k) == CacheKey(e, l)
    ensures d == e && k == l
  {
    if d == "" || e == "" {
      assert CacheKey(d, k)[0] == CacheKey(e, l)[0];
      assert CacheKey(d, k)[1..] == k && CacheKey(e, l)[1..] == l;
    } else {
      assert CacheKey(d, k)[0] == d[0] && CacheKey(e, l)[0] == e[0];
      assert CacheKey(d[1..], k) == CacheKey(d, k)[1..];
      assert CacheKey(e[1..], l) == CacheKey(e, l)[1..];
      CacheKeyIsInjective(d[1..], k, e[1..], l);
      assert d == [d[0]] + d[1..] && e == [e[0]] + e[1..];
    }
  }

  // ----- record lists -----

  /** First record with a subject at an index or later; -1 when there is none. */
  function FindFrom(records: seq<Record>, subject: string, start: nat): (i: int)
    requires start <= |records|
    ensures i == -1 || start <= i < |records|
    ensures i >= 0 ==> records[i].subject == subject
    ensures forall j | start <= j < (if i >= 0 then i else |records|) :: records[j].subject != subject
    decreases |records| - start
  {
    if start == |records| then -1
    else if records[start].subject == subject then start
    else FindFrom(records, subject, start + 1)
  }

  function FindSubject(records: seq<Record>, subject: string): int {
    FindFrom(records, subject, 0)
  }

  /** The record at an index is the first of its subject. */
  ghost predicate IsFirst(records: seq<Record>, subject: string, i: nat) {
    i < |records| && records[i].subject == subject && forall j | 0 <= j < i :: records[j].subject != subject
  }

  ghost predicate Apart(records: seq<Record>, i: int, j: int)
    requires 0 <= i < j < |records|
  {
    records[i].subject != records[j].subject && Normalize(records[i].key) != Normalize(records[j].key)
  }

  /** One record per subject, and keys tell subjects apart. */
  ghost predicate Keyed(records: seq<Record>) {
    forall i, j {:trigger Apart(records, i, j)} | 0 <= i < j < |records| :: Apart(records, i, j)
  }

  ghost predicate Fits(x: Record, r: Record) {
    x.subject == r.subject <==> Normalize(x.key) == Normalize(r.key)
  }

  /** A new record's key fits: it equals the key of its own subject's record and no other. */
  ghost predicate FitsKeys(records: seq<Record>, r: Record) {
    forall i {:trigger Fits(records[i], r)} | 0 <= i < |records| :: Fits(records[i], r)
  }

  /** The list with every record of the subject replaced, or the record added. */
  function Replaced(records: seq<Record>, r: Record): seq<Record> {
    var mapped := seq(|records|, i requires 0 <= i < |records| => if records[i].subject == r.subject then r
        else records[i]);
    if FindSubject(records, r.subject) >= 0 then mapped else mapped + [r]
  }

  /** The list with the first record of the subject replaced in place, or the record pushed. */
  function ReplacedInPlace(records: seq<Record>, r: Record): seq<Record> {
    var i := FindSubject(records, r.subject);
    if i >= 0 then records[i := r] else records + [r]
  }

  /** after is the list with r in the place of its subject's record, or at the end when the subject is new: every record
      of another subject stays at its index. */
  ghost predicate HasUpdate(records: seq<Record>, after: seq<Record>, r: Record) {
    && |after| == |records| + (if exists x :: x in records && x.subject == r.subject then 0 else 1)
    && (forall i | 0 <= i < |records| && records[i].subject != r.subject :: after[i] == records[i])
    && (forall x :: x in after <==> x == r || (x in records && x.subject != r.subject))
  }

  /** Both ways of updating agree on lists with one record per subject, keep them so, and touch no other record. */
  lemma UpdatesAgree(records: seq<Record>, r: Record)
    requires Keyed(records) && FitsKeys(records, r)
    ensures Replaced(records, r) == ReplacedInPlace(records, r)
    ensures Keyed(Replaced(records, r))
    ensures var after := Replaced(records, r);
            && |after| == |records| + (if exists x :: x in records && x.subject == r.subject then 0 else 1)
            && (forall i | 0 <= i < |records| && records[i].subject != r.subject :: after[i] == records[i])
            && (forall x :: x in after <==> x == r || (x in records && x.subject != r.subject))
  {
    var i := FindSubject(records, r.subject);
    var after := ReplacedInPlace(records, r);
    assert after[if i >= 0 then i else |records|] == r;
    forall j | 0 <= j < |records| && j != i ensures records[j].subject != r.subject {
      if i >= 0 { assert if i < j then Apart(records, i, j) else Apart(records, j, i); }
    }
    assert Replaced(records, r) == after;
    forall j, k | 0 <= j < k < |after| ensures Apart(after, j, k) {
      if k < |records| { assert Apart(records, j, k) && Fits(records[k], r); }
      assert Fits(records[j], r);
    }
    OthersStay(records, after, r, if i >= 0 then i else |records|);
  }

  /** Membership after one record is put at an index: at its subject's only record, or at the end. */
  lemma OthersStay(records: seq<Record>, after: seq<Record>, r: Record, i: nat)
    requires i <= |records| && |after| == (if i < |records| then |records| else |records| + 1) && after[i] == r
    requires forall j | 0 <= j < |records| && j != i :: after[j] == records[j] && records[j].subject != r.subject
    requires i < |records| ==> records[i].subject == r.subject
    ensures HasUpdate(records, after, r)
  {
    forall x ensures x in after <==> x == r || (x in records && x.subject != r.subject) {
      if x in after && x != r {
        var j :| 0 <= j < |after| && after[j] == x;
        assert records[j] == x;
      }
      if x in records && x.subject != r.subject {
        var j :| 0 <= j < |records| && records[j] == x;
        assert after[j] == x;
      }
    }
    if i < |records| { assert records[i] in records; }
  }

  /** What an update does to a list determines the list. */
  lemma UpdateDetermines(records: seq<Record>, a: seq<Record>, b: seq<Record>, r: Record)
    requires Keyed(records) && HasUpdate(records, a, r) && HasUpdate(records, b, r)
    ensures a == b
  {
    forall i | 0 <= i < |a| ensures a[i] == b[i] {
      if i == |records| || records[i].subject == r.subject {
        SlotIsUpdated(records, a, r, i);
        SlotIsUpdated(records, b, r, i);
      }
    }
  }

  lemma SlotIsUpdated(records: seq<Record>, after: seq<Record>, r: Record, i: nat)
    requires Keyed(records) && HasUpdate(records, after, r) && i < |after|
    requires i == |records| || records[i].subject == r.subject
    ensures after[i] == r
  {
    SubjectsDiffer(records);
    var j :| 0 <= j < |after| && after[j] == r;
    assert j < |records| ==> records[j].subject == r.subject;
  }

  lemma KeyedIsApart(records: seq<Record>)
    requires Keyed(records)
    ensures KeysApart(records)
  {
    forall i, j | 0 <= i < j < |records| ensures Normalize(records[i].key) != Normalize(records[j].key) {
      assert Apart(records, i, j);
    }
  }

  // ----- the platform -----

  datatype Phase = Sent | Mined

  /** The management update being served: its record, the root it commits, and how far it got. */
  datatype Update = Update(record: Record, root: Digest, phase: Phase)

  datatype CheckError = MissingCert | RootMismatch | ProofFailed | CachedRootMismatch

  datatype Proof = Proof(root: Digest, items: seq<ProofItem>)

  ghost predicate TreeOf(t: Trie, records: seq<Record>) {
    t == Build(records)
  }

  /** root is the digest of the tree of these records. */
  ghost predicate CommitsTo(root: Digest, records: seq<Record>) {
    forall t {:trigger TreeOf(t, records)} | TreeOf(t, records) :: root == Root(t)
  }

  lemma CommitsToRoot(root: Digest, records: seq<Record>)
    ensures CommitsTo(root, records) <==> root == Root(Build(records))
  {
    assert TreeOf(Build(records), records);
  }

  ghost predicate TreeOk(repos: map<string, seq<Record>>, treeCache: map<string, Trie>, d: string) {
    d in treeCache ==> treeCache[d] == Build(RecordsOf(repos, d))
  }

  ghost predicate ProofOk(repos: map<string, seq<Record>>, proofCache: map<string, seq<ProofItem>>, d: string,
      key: string) {
    CacheKey(d, key) in proofCache ==>
        Prove(Build(RecordsOf(repos, d)), Normalize(key)) == Some(proofCache[CacheKey(d, key)])
  }

  ghost predicate RootOk(repos: map<string, seq<Record>>, cache: Option<map<string, Digest>>, d: string) {
    cache.Some? && d in cache.value ==> cache.value[d] == Root(Build(RecordsOf(repos, d)))
  }

  ghost predicate TreesOk(repos: map<string, seq<Record>>, treeCache: map<string, Trie>) {
    forall d {:trigger TreeOk(repos, treeCache, d)} :: TreeOk(repos, treeCache, d)
  }

  ghost predicate ProofsOk(repos: map<string, seq<Record>>, proofCache: map<string, seq<ProofItem>>) {
    forall d, key {:trigger ProofOk(repos, proofCache, d, key)} | NoColon(d) :: ProofOk(repos, proofCache, d, key)
  }

  ghost predicate RootsOk(repos: map<string, seq<Record>>, cache: Option<map<string, Digest>>) {
    forall d {:trigger RootOk(repos, cache, d)} :: RootOk(repos, cache, d)
  }

  /** Every cached tree, proof and root is the repository's. */
  ghost predicate CachesAgree(repos: map<string, seq<Record>>, treeCache: map<string, Trie>,
                              proofCache: map<string, seq<ProofItem>>, rootCache: Option<map<string, Digest>>) {
    TreesOk(repos, treeCache) && ProofsOk(repos, proofCache) && RootsOk(repos, rootCache)
  }

  lemma CacheTree(repos: map<string, seq<Record>>, treeCache: map<string, Trie>, domain: string, tree: Trie)
    requires TreesOk(repos, treeCache) && tree == Build(RecordsOf(repos, domain))
    ensures TreesOk(repos, treeCache[domain := tree])
  {
    var more := treeCache[domain := tree];
    forall d ensures TreeOk(repos, more, d) {
      assert TreeOk(repos, treeCache, d);
    }
  }

  lemma CacheRoot(repos: map<string, seq<Record>>, cache: map<string, Digest>, domain: string, root: Digest)
    requires RootsOk(repos, Some(cache)) && root == Root(Build(RecordsOf(repos, domain)))
    ensures RootsOk(repos, Some(cache[domain := root]))
  {
    var more := Some(cache[domain := root]);
    forall d ensures RootOk(repos, more, d) {
      assert RootOk(repos, Some(cache), d);
    }
  }

  function RecordsOf(repos: map<string, seq<Record>>, domain: string): seq<Record> {
    if domain in repos then repos[domain] else []
  }

  /** A domain's root on chain is that of the version committed under it. */
  ghost predicate RootAgrees(repos: map<string, seq<Record>>, chainRoots: map<string, Digest>, version: map<string,
      seq<Record>>, d: string) {
    && (d in chainRoots <==> d in repos) && (d in version <==> d in repos)
    && (d in repos ==> chainRoots[d] == Root(Build(version[d])))
    && (d in repos && d != MANAGEMENT_DOMAIN ==> version[d] == repos[d])
  }

  ghost predicate ChainAgrees(repos: map<string, seq<Record>>, chainRoots: map<string, Digest>, version: map<string,
      seq<Record>>, update: Option<Update>) {
    && MANAGEMENT_DOMAIN in repos && Keyed(repos[MANAGEMENT_DOMAIN])
    && (forall d {:trigger RootAgrees(repos, chainRoots, version, d)} :: RootAgrees(repos, chainRoots, version, d))
    && MANAGEMENT_DOMAIN in version
    && match update
       case None => version[MANAGEMENT_DOMAIN] == repos[MANAGEMENT_DOMAIN]
       case Some(u) =>
         var next := Replaced(repos[MANAGEMENT_DOMAIN], u.record);
         && FitsKeys(repos[MANAGEMENT_DOMAIN], u.record) && CommitsTo(u.root, next)
         && version[MANAGEMENT_DOMAIN] == if u.phase == Mined then next else repos[MANAGEMENT_DOMAIN]
  }

  /** Every domain but one has the records it had. */
  ghost predicate OthersKept(before: map<string, seq<Record>>, after: map<string, seq<Record>>, domain: string) {
    && after.Keys == before.Keys && domain in before
    && forall d | d in before && d != domain :: after[d] == before[d]
  }

  /** after is before with the update's record in place, and its root is the update's. */
  ghost predicate Applied(before: map<string, seq<Record>>, after: map<string, seq<Record>>, u: Update) {
    && OthersKept(before, after, MANAGEMENT_DOMAIN)
    && HasUpdate(before[MANAGEMENT_DOMAIN], after[MANAGEMENT_DOMAIN], u.record)
    && Keyed(after[MANAGEMENT_DOMAIN]) && CommitsTo(u.root, after[MANAGEMENT_DOMAIN])
  }

  lemma MineKeeps(repos: map<string, seq<Record>>, chainRoots: map<string, Digest>, version: map<string, seq<Record>>,
      u: Update)
    requires ChainAgrees(repos, chainRoots, version, Some(u)) && u.phase == Sent
    ensures ChainAgrees(repos, chainRoots[MANAGEMENT_DOMAIN := u.root],
                        version[MANAGEMENT_DOMAIN := Replaced(repos[MANAGEMENT_DOMAIN], u.record)],
                            Some(u.(phase := Mined)))
  {
    var roots, next := chainRoots[MANAGEMENT_DOMAIN := u.root],
        version[MANAGEMENT_DOMAIN := Replaced(repos[MANAGEMENT_DOMAIN], u.record)];
    CommitsToRoot(u.root, next[MANAGEMENT_DOMAIN]);
    forall d ensures RootAgrees(repos, roots, next, d) {
      assert RootAgrees(repos, chainRoots, version, d);
    }
  }

  lemma FinishKeeps(repos: map<string, seq<Record>>, chainRoots: map<string, Digest>, version: map<string,
      seq<Record>>, u: Update)
    requires ChainAgrees(repos, chainRoots, version, Some(u)) && u.phase == Mined
    ensures var records := ReplacedInPlace(repos[MANAGEMENT_DOMAIN], u.record);
            && records == Replaced(repos[MANAGEMENT_DOMAIN], u.record) && CommitsTo(u.root, records)
            && ChainAgrees(repos[MANAGEMENT_DOMAIN := records], chainRoots, version, None)
            && Keyed(records) && HasUpdate(repos[MANAGEMENT_DOMAIN], records, u.record)
  {
    UpdatesAgree(repos[MANAGEMENT_DOMAIN], u.record);
    var next := repos[MANAGEMENT_DOMAIN := ReplacedInPlace(repos[MANAGEMENT_DOMAIN], u.record)];
    forall d ensures RootAgrees(next, chainRoots, version, d) {
      assert RootAgrees(repos, chainRoots, version, d);
    }
  }

  ghost predicate PurgedAt(domain: string, was: map<string, seq<ProofItem>>, now: map<string, seq<ProofItem>>,
      k: string) {
    && (k in now <==> k in was && !(CacheKey(domain, "") <= k))
    && (k in now ==> now[k] == was[k])
  }

  /** now is was without the keys under the domain's prefix. */
  ghost predicate Purged(domain: string, was: map<string, seq<ProofItem>>, now: map<string, seq<ProofItem>>) {
    forall k {:trigger PurgedAt(domain, was, now, k)} :: PurgedAt(domain, was, now, k)
  }

  class Platform {
    var repos: map<string, seq<Record>>
    var treeCache: map<string, Trie>
    var proofCache: map<string, seq<ProofItem>>
    var domainRootCache: Option<map<string, Digest>>
    var managementInFlight: int
    var chainRoots: map<string, Digest>
    var update: Option<Update>
    ghost var version: map<string, seq<Record>>  // the repository version committed under each root on chain

    ghost predicate CachesOk()
      reads this`repos, this`treeCache, this`proofCache, this`domainRootCache
    {
      CachesAgree(repos, treeCache, proofCache, domainRootCache)
    }

    /** The version on chain is the repository, but for an update that is mined and not yet applied. */
    ghost predicate ChainOk()
      reads this`repos, this`chainRoots, this`update, this`version, this`managementInFlight
    {
      && ChainAgrees(repos, chainRoots, version, update)
      && managementInFlight == (if update.Some? then 1 else 0)
    }

    ghost predicate Valid()
      reads this
    {
      CachesOk() && ChainOk()
    }

    /** A platform whose roots were just put on chain. */
    constructor (repos: map<string, seq<Record>>)
      requires MANAGEMENT_DOMAIN in repos && Keyed(repos[MANAGEMENT_DOMAIN])
      ensures Valid() && this.repos == repos && update == None
    {
      this.repos, version := repos, repos;
      treeCache, proofCache, domainRootCache, managementInFlight := map[], map[], None, 0;
      chainRoots := map d | d in repos :: Root(Build(repos[d]));
      update := None;
      new;
      assert CachesAgree(repos, map[], map[], None) by {
        assert forall d :: TreeOk(repos, map[], d) && RootOk(repos, None, d);
        assert forall d, key :: ProofOk(repos, map[], d, key);
      }
      forall d ensures RootAgrees(repos, chainRoots, version, d) {
      }
    }

    method FindCert(domain: string, subject: string) returns (r: Option<Record>)
      ensures r.Some? ==> exists i: nat ::
                IsFirst(RecordsOf(repos, domain), subject, i) && r.value == RecordsOf(repos, domain)[i]
      ensures r.None? ==> forall c | c in RecordsOf(repos, domain) :: c.subject != subject
    {
      var records := RecordsOf(repos, domain);
      var i := FindSubject(records, subject);
      assert i >= 0 ==> IsFirst(records, subject, i);
      r := if i >= 0 then Some(records[i]) else None;
    }

    /** The domain's tree, built once and cached. */
    method GetRepoTree(domain: string) returns (tree: Trie)
      requires CachesOk()
      modifies this`treeCache
      ensures CachesOk() && tree == Build(RecordsOf(repos, domain))
    {
      if domain !in treeCache {
        CacheTree(repos, treeCache, domain, Build(RecordsOf(repos, domain)));
        treeCache := treeCache[domain := Build(RecordsOf(repos, domain))];
      }
      assert TreeOk(repos, treeCache, domain);
      tree := treeCache[domain];
    }

    /** The record's proof, made once and cached; none when the key has no path in the tree. */
    method GetRepoProof(domain: string, record: Record) returns (items: Option<seq<ProofItem>>)
      requires CachesOk() && NoColon(domain)
      modifies this`treeCache, this`proofCache
      ensures CachesOk() && items == Prove(Build(RecordsOf(repos, domain)), Normalize(record.key))
    {
      var key := CacheKey(domain, record.key);
      assert ProofOk(repos, proofCache, domain, record.key);
      if key !in proofCache {
        var tree := GetRepoTree(domain);
        items := Prove(tree, Normalize(record.key));
        if items.None? {
          return;
        }
        CacheProof(repos, proofCache, domain, record.key, items.value);
        proofCache := proofCache[key := items.value];
      }
      items := Some(proofCache[key]);
    }

    /** The domain's root, cached apart from the tree. */
    method DomainRootFromCache(domain: string) returns (root: Digest)
      requires CachesOk()
      modifies this`treeCache, this`domainRootCache
      ensures CachesOk() && root == Root(Build(RecordsOf(repos, domain)))
    {
      if domainRootCache.None? {
        assert forall d :: RootOk(repos, Some(map[]), d);
        domainRootCache := Some(map[]);
      }
      if domain !in domainRootCache.value {
        var tree := GetRepoTree(domain);
        CacheRoot(repos, domainRootCache.value, domain, Root(tree));
        domainRootCache := Some(domainRootCache.value[domain := Root(tree)]);
      }
      assert RootOk(repos, domainRootCache, domain);
      root := domainRootCache.value[domain];
    }

    /** Forgets the domain's tree and every proof cached under its prefix, and nothing else. */
    method InvalidateDomainCache(domain: string)
      requires NoColon(domain)
      modifies this`treeCache, this`proofCache
      ensures treeCache == old(treeCache) - {domain}
      ensures Purged(domain, old(proofCache), proofCache)
    {
      treeCache := treeCache - {domain};
      var keys := proofCache.Keys;
      while keys != {}
        invariant treeCache == old(treeCache) - {domain}
        invariant keys <= old(proofCache).Keys
        invariant forall k :: k in proofCache <==> k in old(proofCache) && (k in keys || !(CacheKey(domain, "") <= k))
        invariant forall k | k in proofCache :: proofCache[k] == old(proofCache)[k]
        decreases keys
      {
        var k :| k in keys;
        if CacheKey(domain, "") <= k {
          proofCache := proofCache - {k};
        }
        keys := keys - {k};
      }
      forall k ensures PurgedAt(domain, old(proofCache), proofCache, k) {
      }
    }

    // ----- management updates -----

    /** Serves an update up to its transaction: the next root is built from a copy of the list. */
    method BeginUpdate(record: Record)
      requires Valid() && update.None? && FitsKeys(repos[MANAGEMENT_DOMAIN], record)
      modifies this`update, this`managementInFlight
      ensures Valid()
      ensures update.Some? && update.value.record == record && update.value.phase == Sent
      ensures forall next | HasUpdate(repos[MANAGEMENT_DOMAIN], next, record) :: CommitsTo(update.value.root, next)
    {
      var currentRecords := repos[MANAGEMENT_DOMAIN];
      UpdatesAgree(currentRecords, record);
      forall next | HasUpdate(currentRecords, next, record) ensures next == Replaced(currentRecords, record) {
        UpdateDetermines(currentRecords, next, Replaced(currentRecords, record), record);
      }
      var tree := Build(Replaced(currentRecords, record));
      CommitsToRoot(Root(tree), Replaced(currentRecords, record));
      managementInFlight := managementInFlight + 1;
      update := Some(Update(record, Root(tree), Sent));
    }

    /** The chain finalises the update's certificate and root. */
    method Mine()
      requires Valid() && update.Some? && update.value.phase == Sent
      modifies this`update, this`chainRoots, this`version
      ensures Valid() && update == Some(old(update).value.(phase := Mined))
      ensures chainRoots == old(chainRoots)[MANAGEMENT_DOMAIN := old(update).value.root]
      ensures OthersKept(old(version), version, MANAGEMENT_DOMAIN)
      ensures HasUpdate(repos[MANAGEMENT_DOMAIN], version[MANAGEMENT_DOMAIN], old(update).value.record)
    {
      UpdatesAgree(repos[MANAGEMENT_DOMAIN], update.value.record);
      MineKeeps(repos, chainRoots, version, update.value);
      chainRoots := chainRoots[MANAGEMENT_DOMAIN := update.value.root];
      version := version[MANAGEMENT_DOMAIN := Replaced(repos[MANAGEMENT_DOMAIN], update.value.record)];
      update := Some(update.value.(phase := Mined));
    }

    /** The transaction is refused: nothing but the in-flight count changes. */
    method RejectUpdate()
      requires Valid() && update.Some? && update.value.phase == Sent
      modifies this`update, this`managementInFlight
      ensures Valid() && update.None?
    {
      update := None;
      managementInFlight := if managementInFlight - 1 > 0 then managementInFlight - 1 else 0;
    }

    /** Puts a record in place, drops the caches, and caches the new root. */
    method ApplyRecord(record: Record, root: Digest)
      requires CachesOk() && MANAGEMENT_DOMAIN in repos
      requires CommitsTo(root, ReplacedInPlace(repos[MANAGEMENT_DOMAIN], record))
      modifies this`repos, this`treeCache, this`proofCache, this`domainRootCache
      ensures CachesOk()
      ensures repos == old(repos)[MANAGEMENT_DOMAIN := ReplacedInPlace(old(repos)[MANAGEMENT_DOMAIN], record)]
    {
      ghost var before, trees, was, cache := repos, treeCache, proofCache, domainRootCache;
      repos := repos[MANAGEMENT_DOMAIN := ReplacedInPlace(repos[MANAGEMENT_DOMAIN], record)];
      InvalidateDomainCache(MANAGEMENT_DOMAIN);
      if domainRootCache.Some? {
        domainRootCache := Some(domainRootCache.value[MANAGEMENT_DOMAIN := root]);
      }
      CachesFollow(before, repos, MANAGEMENT_DOMAIN, root, trees, was, proofCache, cache);
    }

    /** Applies a mined update: the repository becomes the version on chain. */
    method ApplyUpdate(u: Update)
      requires CachesOk() && ChainAgrees(repos, chainRoots, version, Some(u)) && u.phase == Mined
      modifies this`repos, this`treeCache, this`proofCache, this`domainRootCache
      ensures CachesOk() && ChainAgrees(repos, chainRoots, version, None)
      ensures Applied(old(repos), repos, u)
    {
      FinishKeeps(repos, chainRoots, version, u);
      ApplyRecord(u.record, u.root);
    }

    /** The check passes for an update just applied. */
    method CheckUpdate(u: Update, ghost before: map<string, seq<Record>>) returns (err: Option<CheckError>)
      requires CachesOk() && Applied(before, repos, u)
      modifies this`treeCache, this`domainRootCache
      ensures CachesOk() && err.None?
    {
      AppliedPasses(before, repos, u);
      err := VerifyRepositoryUpdate(u.record, u.root);
    }

    /** The update is applied and the repository is checked against the new root. The check never fails. */
    method FinishUpdate() returns (err: Option<CheckError>)
      requires Valid() && update.Some? && update.value.phase == Mined
      modifies this
      ensures Valid() && update.None? && err.None?
      ensures OthersKept(old(repos), repos, MANAGEMENT_DOMAIN)
      ensures HasUpdate(old(repos)[MANAGEMENT_DOMAIN], repos[MANAGEMENT_DOMAIN], old(update).value.record)
      ensures chainRoots == old(chainRoots) && version == old(version)
    {
      var u := update.value;
      ghost var before := repos;
      ApplyUpdate(u);
      err := CheckUpdate(u, before);
      update := None;
      managementInFlight := if managementInFlight - 1 > 0 then managementInFlight - 1 else 0;
    }

    /** The check after an update, and exactly when it passes. */
    method VerifyRepositoryUpdate(record: Record, expectedRoot: Digest) returns (err: Option<CheckError>)
      requires CachesOk()
      modifies this`treeCache, this`domainRootCache
      ensures CachesOk()
      ensures err.None? <==> Passes(RecordsOf(repos, MANAGEMENT_DOMAIN), record, expectedRoot)
    {
      var records := RecordsOf(repos, MANAGEMENT_DOMAIN);
      var i := FindSubject(records, record.subject);
      if i < 0 || records[i].certHash != record.certHash {
        return Some(MissingCert);
      }
      var tree := Build(records);
      CommitsToRoot(expectedRoot, records);
      if Root(tree) != expectedRoot {
        return Some(RootMismatch);
      }
      var items := Prove(tree, Normalize(record.key));
      BuildHoldsContents(records);
      ProveIsHonest(tree, Normalize(record.key));
      if Get(tree, Normalize(record.key)).Some? {
        StoredHasPath(tree, Normalize(record.key));
      }
      if items.None? {
        return Some(ProofFailed);
      }
      AcceptsIff(tree, Normalize(record.key), Some(ValueHash(record)), items.value);
      if !Accepts(Normalize(record.key), Some(ValueHash(record)), items.value, expectedRoot) {
        return Some(ProofFailed);
      }
      var cachedRoot := DomainRootFromCache(MANAGEMENT_DOMAIN);
      if cachedRoot != expectedRoot {
        return Some(CachedRootMismatch);
      }
      err := None;
    }

    /** Forgets everything cached for a domain. */
    method ForgetDomain(domain: string)
      requires CachesOk() && NoColon(domain)
      modifies this`treeCache, this`proofCache, this`domainRootCache
      ensures CachesOk() && treeCache == old(treeCache) - {domain} && Purged(domain, old(proofCache), proofCache)
      ensures domainRootCache ==
              if old(domainRootCache).Some? then Some(old(domainRootCache).value - {domain}) else None
    {
      ghost var trees, was, cache := treeCache, proofCache, domainRootCache;
      InvalidateDomainCache(domain);
      if domainRootCache.Some? {
        domainRootCache := Some(domainRootCache.value - {domain});
      }
      CachesForget(repos, domain, trees, was, proofCache, cache);
    }

    // ----- what authentications read -----

    /** The proof the repository hands out for a certificate, with the root it belongs to. */
    method LocalProof(source: Record) returns (proof: Option<Proof>)
      requires CachesOk() && NoColon(source.domain)
      modifies this`treeCache, this`proofCache
      ensures CachesOk()
      ensures var tree := Build(RecordsOf(repos, source.domain));
              proof == match Prove(tree,
                  Normalize(source.key)) case None => None case Some(items) => Some(Proof(Root(tree), items))
    {
      var tree := GetRepoTree(source.domain);
      var items := GetRepoProof(source.domain, source);
      if items.None? {
        return None;
      }
      proof := Some(Proof(Root(tree), items.value));
    }

    /** The root on chain, and the version it commits. */
    method DomainRootOnChain(domain: string) returns (root: Option<Digest>)
      requires ChainOk()
      ensures root.Some? <==> domain in repos
      ensures root.Some? ==> domain in version && root.value == Root(Build(version[domain]))
    {
      assert RootAgrees(repos, chainRoots, version, domain);
      root := if domain in chainRoots then Some(chainRoots[domain]) else None;
    }

    /** With no update in flight, the roots on chain are the repositories' roots. */
    lemma ChainIsRepository(domain: string)
      requires Valid() && domain in repos && managementInFlight == 0
      ensures domain in chainRoots && domain in version
      ensures chainRoots[domain] == Root(Build(repos[domain])) && version[domain] == repos[domain]
    {
      assert RootAgrees(repos, chainRoots, version, domain);
    }
  }

  /** With no update in flight, the proof a repository hands out for its own record is accepted against the root on
      chain: only a concurrent update can make an honest authentication fail or retry. */
  lemma QuietProofAccepted(platform: Platform, source: Record)
    requires platform.Valid() && platform.managementInFlight == 0
    requires source.domain in platform.repos && Keyed(platform.repos[source.domain])
               && source in platform.repos[source.domain]
    ensures source.domain in platform.chainRoots
    ensures var tree := Build(platform.repos[source.domain]);
            var items := Prove(tree, Normalize(source.key));
            && platform.chainRoots[source.domain] == Root(tree)
            && items.Some? && Accepts(Normalize(source.key), Some(ValueHash(source)), items.value,
                  platform.chainRoots[source.domain])
  {
    platform.ChainIsRepository(source.domain);
    HonestProofAccepted(platform.repos[source.domain], source);
  }

  lemma CacheProof(repos: map<string, seq<Record>>, proofCache: map<string, seq<ProofItem>>, domain: string,
      key: string, items: seq<ProofItem>)
    requires ProofsOk(repos, proofCache) && NoColon(domain)
    requires Prove(Build(RecordsOf(repos, domain)), Normalize(key)) == Some(items)
    ensures ProofsOk(repos, proofCache[CacheKey(domain, key) := items])
  {
    var more := proofCache[CacheKey(domain, key) := items];
    forall d, k | NoColon(d) ensures ProofOk(repos, more, d, k) {
      assert ProofOk(repos, proofCache, d, k);
      if CacheKey(d, k) == CacheKey(domain, key) {
        CacheKeyIsInjective(d, k, domain, key);
      }
    }
  }

  /** The caches after an update of one domain: its tree and proofs dropped, its root replaced if roots are cached. */
  lemma CachesFollow(before: map<string, seq<Record>>, after: map<string, seq<Record>>, domain: string, root: Digest,
                     trees: map<string, Trie>, was: map<string, seq<ProofItem>>, now: map<string, seq<ProofItem>>,
                     cache: Option<map<string, Digest>>)
    requires NoColon(domain) && CachesAgree(before, trees, was, cache)
    requires forall d | d != domain :: RecordsOf(after, d) == RecordsOf(before, d)
    requires CommitsTo(root, RecordsOf(after, domain))
    requires Purged(domain, was, now)
    ensures CachesAgree(after, trees - {domain}, now, if cache.Some? then Some(cache.value[domain := root]) else None)
  {
    forall d, key | NoColon(d) ensures ProofOk(after, now, d, key) {
      assert ProofOk(before, was, d, key) && PurgedAt(domain, was, now, CacheKey(d, key));
      if d == domain {
        assert CacheKey(d, key) == CacheKey(domain, "") + key;
        assert CacheKey(domain, "") <= CacheKey(d, key);
      }
    }
    forall d ensures TreeOk(after, trees - {domain}, d) {
      assert TreeOk(before, trees, d);
    }
    var next := if cache.Some? then Some(cache.value[domain := root]) else None;
    CommitsToRoot(root, RecordsOf(after, domain));
    forall d ensures RootOk(after, next, d) {
      assert RootOk(before, cache, d);
    }
  }

  lemma CachesForget(repos: map<string, seq<Record>>, domain: string,
                     trees: map<string, Trie>, was: map<string, seq<ProofItem>>, now: map<string, seq<ProofItem>>,
                     cache: Option<map<string, Digest>>)
    requires CachesAgree(repos, trees, was, cache)
    requires Purged(domain, was, now)
    ensures CachesAgree(repos, trees - {domain}, now, if cache.Some? then Some(cache.value - {domain}) else None)
  {
    forall d, key | NoColon(d) ensures ProofOk(repos, now, d, key) {
      assert ProofOk(repos, was, d, key) && PurgedAt(domain, was, now, CacheKey(d, key));
    }
    forall d ensures TreeOk(repos, trees - {domain}, d) {
      assert TreeOk(repos, trees, d);
    }
    var next := if cache.Some? then Some(cache.value - {domain}) else None;
    forall d ensures RootOk(repos, next, d) {
      assert RootOk(repos, cache, d);
    }
  }

  lemma SubjectsDiffer(records: seq<Record>)
    requires Keyed(records)
    ensures forall i, j | 0 <= i < j < |records| :: records[i].subject != records[j].subject
  {
    forall i, j | 0 <= i < j < |records| ensures records[i].subject != records[j].subject {
      assert Apart(records, i, j);
    }
  }

  /** What the check after an update asks: the subject's record carries the certificate, the list has the expected root,
      and the record's key maps to its value. */
  ghost predicate Passes(records: seq<Record>, record: Record, expectedRoot: Digest) {
    var i := FindSubject(records, record.subject);
    && i >= 0 && records[i].certHash == record.certHash
    && CommitsTo(expectedRoot, records)
    && Lookup(Contents(records), Normalize(record.key)) == Some(ValueHash(record))
  }

  /** A record just put in place passes. */
  lemma CheckPasses(records: seq<Record>, record: Record, root: Digest)
    requires Keyed(records) && record in records && CommitsTo(root, records)
    ensures Passes(records, record, root)
  {
    var i :| 0 <= i < |records| && records[i] == record;
    SubjectsDiffer(records);
    KeyedIsApart(records);
    MemberIsContent(records, i);
  }

  lemma AppliedPasses(before: map<string, seq<Record>>, after: map<string, seq<Record>>, u: Update)
    requires Applied(before, after, u)
    ensures Passes(RecordsOf(after, MANAGEMENT_DOMAIN), u.record, u.root)
  {
    CheckPasses(after[MANAGEMENT_DOMAIN], u.record, u.root);
  }

  // ----- authentication -----

  datatype Stage = Asking | Proving | Rooting | Deciding | Done(ok: bool)

  /** The record is certified by a repository version: the version holds its key and certificate. */
  ghost predicate Certified(version: seq<Record>, source: Record) {
    exists r :: r in version && r.key == source.key && r.certHash == source.certHash
  }

  /** Whatever the proof, acceptance against a version's root certifies the record. */
  lemma AcceptedIsCertified(version: seq<Record>, source: Record, proof: Proof)
    requires proof.root == Root(Build(version))
    requires Accepts(Normalize(source.key), Some(ValueHash(source)), proof.items, proof.root)
    ensures Certified(version, source)
  {
    Sound(version, source.key, ValueHash(source), proof.items);
    ContentsComeFromRecords(version, Normalize(source.key), ValueHash(source));
  }

  /** The repository's own proof of one of its records is accepted against its root. */
  lemma HonestProofAccepted(version: seq<Record>, source: Record)
    requires Keyed(version) && source in version
    ensures var items := Prove(Build(version), Normalize(source.key));
            items.Some? && Accepts(Normalize(source.key), Some(ValueHash(source)), items.value, Root(Build(version)))
  {
    var i :| 0 <= i < |version| && version[i] == source;
    KeyedIsApart(version);
    MemberIsContent(version, i);
    Complete(version, source.key);
  }

  /** One authentication. Any platform steps may run between its own steps, and its proof may come from anyone. */
  class AuthExecution {
    const platform: Platform
    const domain: string
    const subject: string
    const canRetry: bool
    var stage: Stage
    var retried: bool
    var source: Record
    var proof: Proof
    var chainRoot: Option<Digest>
    ghost var version: seq<Record>  // the repository version on chain when the root was read

    ghost predicate Valid()
      reads this
    {
      && (retried ==> canRetry)
      && (stage.Deciding? && chainRoot.Some? ==> chainRoot.value == Root(Build(version)))
      && (stage == Done(true) ==> Certified(version, source))
    }

    constructor (platform: Platform, domain: string, subject: string, canRetry: bool)
      ensures Valid() && stage == Asking && !retried && this.canRetry == canRetry
    {
      this.platform, this.domain, this.subject, this.canRetry := platform, domain, subject, canRetry;
      stage, retried, chainRoot := Asking, false, None;
      source, proof, version := Record(domain, subject, "", TextDigest("")), Proof(TextDigest(""), []), [];
    }

    /** Looks the source certificate up in the repository as it is now. */
    method FindSource() returns (found: bool)
      requires Valid() && stage == Asking
      modifies this
      ensures Valid() && retried == old(retried) && StepsLeft() < old(StepsLeft())
      ensures found ==> stage == Proving && source in RecordsOf(platform.repos, domain) && source.subject == subject
      ensures !found ==> stage == Done(false) && forall c | c in RecordsOf(platform.repos, domain) ::
                c.subject != subject
    {
      var cert := platform.FindCert(domain, subject);
      found := cert.Some?;
      if found {
        source := cert.value;
      }
      stage := if found then Proving else Done(false);
    }

    /** A proof arrives; nothing is assumed about it. */
    method ReceiveProof(p: Proof)
      requires Valid() && stage == Proving
      modifies this`proof, this`stage
      ensures Valid() && stage == Rooting && proof == p && StepsLeft() < old(StepsLeft())
    {
      proof, stage := p, Rooting;
    }

    /** The root is read from chain. */
    method ReceiveRoot()
      requires Valid() && stage == Rooting && platform.ChainOk()
      modifies this`chainRoot, this`version, this`stage
      ensures Valid() && stage == Deciding && StepsLeft() < old(StepsLeft())
      ensures domain in platform.repos ==>
                domain in platform.version && version == platform.version[domain] && chainRoot.Some?
    {
      chainRoot := platform.DomainRootOnChain(domain);
      if chainRoot.Some? {
        version := platform.version[domain];
      }
      stage := Deciding;
    }

    /** Decides, or starts over once when the roots differ. Success certifies the source in the version that was on
        chain when the root was read. */
    method Decide()
      requires Valid() && stage == Deciding && platform.CachesOk() && NoColon(domain)
      modifies this`stage, this`retried, platform`treeCache, platform`proofCache, platform`domainRootCache
      ensures Valid() && platform.CachesOk() && StepsLeft() < old(StepsLeft())
      ensures stage == Done(true) <==>
                && chainRoot == Some(proof.root)
                && Accepts(Normalize(source.key), Some(ValueHash(source)), proof.items, proof.root)
      ensures stage == Done(true) ==> Certified(version, source)
      ensures stage == Asking <==> chainRoot != Some(proof.root) && canRetry && !old(retried)
      ensures stage.Done? || stage == Asking
      ensures retried == (old(retried) || stage == Asking)
      ensures stage == Asking ==>
                && domain !in platform.treeCache && Purged(domain, old(platform.proofCache), platform.proofCache)
                && (platform.domainRootCache.Some? ==> domain !in platform.domainRootCache.value)
      ensures stage.Done? ==> unchanged(platform)
    {
      var okRoot := chainRoot == Some(proof.root);
      if !okRoot && canRetry && !retried {
        platform.ForgetDomain(domain);
        retried, stage := true, Asking;
        return;
      }
      var okProof := okRoot && Accepts(Normalize(source.key), Some(ValueHash(source)), proof.items, proof.root);
      if okProof {
        AcceptedIsCertified(version, source, proof);
      }
      stage := Done(okProof);
    }

    /** The termination measure of an authentication: each step lowers it, so at most one retry happens. */
    ghost function StepsLeft(): nat
      reads this
    {
      (if canRetry && !retried then 4 else 0) +
      match stage case Asking => 4 case Proving => 3 case Rooting => 2 case Deciding => 1 case Done(_) => 0
    }
  }
}
