/** The hexary certificate trie as a value: contents, digests, proofs and their laws. */
module Trie {
  import opened Wrappers
  import opened Sorting

  /** A collision-free hash: a digest remembers the object it was taken of. */
  datatype Digest =
    | TextDigest(text: string)
    | ValueDigest(key: string, certHash: Digest)
    | NodeDigest(value: Option<Digest>, children: seq<Entry>)
  datatype Entry = Entry(nibble: char, hash: Digest)

  datatype Record = Record(domain: string, subject: string, key: string, certHash: Digest)

  datatype Trie = Node(value: Option<Digest>, children: map<char, Trie>)

  const EMPTY_TRIE := Node(None, map[])

  function ValueHash(r: Record): Digest {
    ValueDigest(r.key, r.certHash)
  }

  function Put(t: Trie, path: string, v: Digest): Trie
    decreases |path|
  {
    if path == "" then t.(value := Some(v)) else
    var sub := if path[0] in t.children then t.children[path[0]] else EMPTY_TRIE;
    t.(children := t.children[path[0] := Put(sub, path[1..], v)])
  }

  predicate HasPath(t: Trie, path: string)
    decreases |path|
  {
    path == "" || (path[0] in t.children && HasPath(t.children[path[0]], path[1..]))
  }

  function Get(t: Trie, path: string): Option<Digest>
    decreases |path|
  {
    if path == "" then t.value
    else if path[0] in t.children then Get(t.children[path[0]], path[1..])
    else None
  }

  predicate ByNibble(a: Entry, b: Entry) {
    a.nibble <= b.nibble
  }

  function NodeHash(value: Option<Digest>, children: seq<Entry>): Digest {
    NodeDigest(value, Sort(children, ByNibble))
  }

  predicate IsLeast(c: char, keys: set<char>) {
    c in keys && forall d | d in keys :: c <= d
  }

  lemma {:induction false} LeastExists(keys: set<char>)
    requires keys != {}
    ensures exists c :: IsLeast(c, keys)
    decreases |keys|
  {
    var c :| c in keys;
    var rest := keys - {c};
    if rest == {} {
      assert keys == {c};
      assert IsLeast(c, keys);
    } else {
      LeastExists(rest);
      var e :| IsLeast(e, rest);
      var m := if e < c then e else c;
      forall d | d in keys ensures m <= d {
        assert d == c || d in rest;
      }
      assert IsLeast(m, keys);
    }
  }

  function Least(keys: set<char>): (c: char)
    requires keys != {}
    ensures IsLeast(c, keys)
  {
    LeastExists(keys);
    var c :| IsLeast(c, keys);
    c
  }

  function SortedEntries(m: map<char, Digest>): seq<Entry>
    decreases m.Keys
  {
    if m.Keys == {} then [] else
    var c := Least(m.Keys);
    assert (m - {c}).Keys == m.Keys - {c};
    [Entry(c, m[c])] + SortedEntries(m - {c})
  }

  function ChildDigests(t: Trie): map<char, Digest>
    decreases t, 0
  {
    map c | c in t.children :: Root(t.children[c])
  }

  function Root(t: Trie): Digest
    decreases t, 1
  {
    NodeHash(t.value, SortedEntries(ChildDigests(t)))
  }

  // ----- digests determine tries -----

  function EntryMap(s: seq<Entry>): map<char, Digest> {
    if s == [] then map[] else EntryMap(s[1..])[s[0].nibble := s[0].hash]
  }

  lemma {:induction false} SortedEntriesFacts(m: map<char, Digest>)
    ensures EntryMap(SortedEntries(m)) == m
    ensures Sorted(SortedEntries(m), ByNibble)
    ensures forall e :: e in SortedEntries(m) <==> e.nibble in m && m[e.nibble] == e.hash
    decreases m.Keys
  {
    if m.Keys == {} {
      assert m == map[];
    } else {
      var c := Least(m.Keys);
      var rest := m - {c};
      assert rest.Keys == m.Keys - {c};
      SortedEntriesFacts(rest);
      var tail := SortedEntries(rest);
      assert SortedEntries(m) == [Entry(c, m[c])] + tail;
      assert m == rest[c := m[c]];
      forall j | 0 <= j < |tail| ensures ByNibble(Entry(c, m[c]), tail[j]) {
        assert tail[j] in tail;
      }
    }
  }

  /** Equal root digests mean equal tries: no two repositories share a root by accident. */
  lemma {:induction false} RootIsInjective(t: Trie, u: Trie)
    requires Root(t) == Root(u)
    ensures t == u
    decreases t
  {
    var m, n := ChildDigests(t), ChildDigests(u);
    SortedEntriesFacts(m);
    SortedEntriesFacts(n);
    SortOfSorted(SortedEntries(m), ByNibble);
    SortOfSorted(SortedEntries(n), ByNibble);
    assert m == n;
    assert t.children.Keys == m.Keys == n.Keys == u.children.Keys;
    forall c | c in t.children ensures t.children[c] == u.children[c] {
      assert m[c] == n[c];
      RootIsInjective(t.children[c], u.children[c]);
    }
    assert t.children == u.children;
  }

  // ----- contents -----

  lemma {:induction false} GetPut(t: Trie, path: string, v: Digest, q: string)
    ensures Get(Put(t, path, v), q) == if q == path then Some(v) else Get(t, q)
    decreases |path|
  {
    if path == "" || q == "" {
    } else {
      var sub := if path[0] in t.children then t.children[path[0]] else EMPTY_TRIE;
      if q[0] == path[0] {
        GetPut(sub, path[1..], v, q[1..]);
        assert q == path <==> q[1..] == path[1..] by {
          assert q == [q[0]] + q[1..] && path == [path[0]] + path[1..];
        }
        if path[0] !in t.children { EmptyHasNothing(q[1..]); }
      } 
    }
  }

  lemma EmptyHasNothing(q: string)
    ensures Get(EMPTY_TRIE, q) == None
  {
  }

  /** Every branch leads to a value: the shape insertion alone produces. */
  predicate Pruned(t: Trie)
  {
    forall c | c in t.children :: t.children[c] != EMPTY_TRIE && Pruned(t.children[c])
  }

  lemma {:induction false} PrunedHasValue(t: Trie) returns (path: string)
    requires Pruned(t) && t != EMPTY_TRIE
    ensures Get(t, path).Some?
  {
    if t.value.Some? {
      path := "";
    } else {
      assert t.children != map[];
      var c :| c in t.children;
      var rest := PrunedHasValue(t.children[c]);
      path := [c] + rest;
    }
  }

  lemma {:induction false} PutKeepsPruned(t: Trie, path: string, v: Digest)
    requires Pruned(t)
    ensures Pruned(Put(t, path, v)) && Put(t, path, v) != EMPTY_TRIE
    decreases |path|
  {
    if path != "" {
      var sub := if path[0] in t.children then t.children[path[0]] else EMPTY_TRIE;
      PutKeepsPruned(sub, path[1..], v);
      assert path[0] in Put(t, path, v).children;
    }
  }

  lemma {:induction false} PrunedIsCanonical(t: Trie, u: Trie)
    requires Pruned(t) && Pruned(u)
    requires forall q :: Get(t, q) == Get(u, q)
    ensures t == u
    decreases t
  {
    assert Get(t, "") == Get(u, "");
    BranchesAgree(t, u);
    BranchesAgree(u, t);
    forall c | c in t.children ensures t.children[c] == u.children[c] {
      forall q ensures Get(t.children[c], q) == Get(u.children[c], q) {
        assert Get(t, [c] + q) == Get(u, [c] + q);
        assert ([c] + q)[1..] == q;
      }
      PrunedIsCanonical(t.children[c], u.children[c]);
    }
    assert t.children == u.children;
  }

  lemma {:induction false} BranchesAgree(t: Trie, u: Trie)
    requires Pruned(t)
    requires forall q :: Get(t, q) == Get(u, q)
    ensures t.children.Keys <= u.children.Keys
  {
    forall c | c in t.children ensures c in u.children {
      var q := PrunedHasValue(t.children[c]);
      assert ([c] + q)[1..] == q;
      assert Get(t, [c] + q).Some?;
    }
  }

  // ----- repositories -----

  function Lower(c: char): char {
    if 'A' <= c <= 'Z' then (c - 'A') + 'a' else c
  }

  function LowerAll(s: string): string {
    if s == "" then "" else [Lower(s[0])] + LowerAll(s[1..])
  }

  /** Drops one leading 0x or 0X and folds to lower case. */
  function Normalize(key: string): string {
    if |key| >= 2 && key[0] == '0' && (key[1] == 'x' || key[1] == 'X')
    then LowerAll(key[2..]) else LowerAll(key)
  }

  // ----- which keys are one -----

  /** How much of a key a leading 0x or 0X takes. */
  ghost function Prefix(key: string): (n: nat)
    ensures n <= |key|
  {
    if |key| >= 2 && key[0] == '0' && key[1] in {'x', 'X'} then 2 else 0
  }

  /** The character at an index behind the prefix. */
  ghost function KeyAt(key: string, i: nat): char
    requires i < |key| - Prefix(key)
  {
    key[Prefix(key) + i]
  }

  /** The same character, up to letter case. */
  ghost predicate SameLetter(a: char, b: char) {
    a == b || ('A' <= a <= 'Z' && b as int == a as int + 32) || ('A' <= b <= 'Z' && a as int == b as int + 32)
  }

  /** The keys agree, character by character, after one leading 0x or 0X of either and up to letter case. */
  ghost predicate SameKey(a: string, b: string) {
    var n := |a| - Prefix(a);
    n == |b| - Prefix(b) && forall i: nat | i < n :: SameLetter(KeyAt(a, i), KeyAt(b, i))
  }

  lemma {:induction false} LowerAllAt(s: string)
    ensures |LowerAll(s)| == |s| && forall i | 0 <= i < |s| :: LowerAll(s)[i] == Lower(s[i])
  {
    if s != "" { LowerAllAt(s[1..]); }
  }

  lemma NormalizeAt(key: string)
    ensures |Normalize(key)| == |key| - Prefix(key)
    ensures forall i: nat | i < |Normalize(key)| :: Normalize(key)[i] == Lower(KeyAt(key, i))
  {
    var rest := key[Prefix(key)..];
    assert Normalize(key) == LowerAll(rest);
    LowerAllAt(rest);
  }

  lemma LowerIsSame(a: char, b: char)
    ensures Lower(a) == Lower(b) <==> SameLetter(a, b)
  {
  }

  /** A key's path has one step per character after the prefix, and two keys share it exactly when they are the same up
      to prefix and letter case. */
  lemma SamePathIff(a: string, b: string)
    ensures |Normalize(a)| == |a| - Prefix(a)
    ensures Normalize(a) == Normalize(b) <==> SameKey(a, b)
  {
    NormalizeAt(a);
    NormalizeAt(b);
    var x, y := Normalize(a), Normalize(b);
    if |x| == |y| {
      forall i: nat | i < |x| ensures x[i] == y[i] <==> SameLetter(KeyAt(a, i), KeyAt(b, i)) {
        LowerIsSame(KeyAt(a, i), KeyAt(b, i));
      }
    }
  }

  // ----- what a repository holds -----

  function Build(records: seq<Record>): Trie {
    if records == [] then EMPTY_TRIE else
    var n := |records| - 1;
    Put(Build(records[..n]), Normalize(records[n].key), ValueHash(records[n]))
  }

  /** What a repository means: the last record of each normalised key. */
  function Contents(records: seq<Record>): map<string, Digest> {
    if records == [] then map[] else
    var n := |records| - 1;
    Contents(records[..n])[Normalize(records[n].key) := ValueHash(records[n])]
  }

  function Lookup(m: map<string, Digest>, q: string): Option<Digest> {
    if q in m then Some(m[q]) else None
  }

  lemma {:induction false} BuildHoldsContents(records: seq<Record>)
    ensures Pruned(Build(records))
    ensures forall q :: Get(Build(records), q) == Lookup(Contents(records), q)
  {
    if records == [] {
      forall q ensures Get(EMPTY_TRIE, q) == None { EmptyHasNothing(q); }
    } else {
      var n := |records| - 1;
      var path, v := Normalize(records[n].key), ValueHash(records[n]);
      BuildHoldsContents(records[..n]);
      PutKeepsPruned(Build(records[..n]), path, v);
      forall q ensures Get(Build(records), q) == Lookup(Contents(records), q) {
        GetPut(Build(records[..n]), path, v, q);
      }
    }
  }

  /** Two repositories have the same root exactly when they hold the same certificates. */
  lemma RootsAgreeIffContentsAgree(a: seq<Record>, b: seq<Record>)
    ensures Root(Build(a)) == Root(Build(b)) <==> Contents(a) == Contents(b)
  {
    BuildHoldsContents(a);
    BuildHoldsContents(b);
    if Root(Build(a)) == Root(Build(b)) {
      RootIsInjective(Build(a), Build(b));
      var ca, cb := Contents(a), Contents(b);
      forall q ensures Lookup(ca, q) == Lookup(cb, q) {
        assert Get(Build(a), q) == Get(Build(b), q);
      }
      forall q | q in ca ensures q in cb && ca[q] == cb[q] { assert Lookup(ca, q) == Lookup(cb, q); }
      forall q | q in cb ensures q in ca { assert Lookup(ca, q) == Lookup(cb, q); }
      assert ca == cb;
    }
    if Contents(a) == Contents(b) {
      forall q ensures Get(Build(a), q) == Get(Build(b), q) {
        assert Get(Build(a), q) == Lookup(Contents(a), q);
      }
      PrunedIsCanonical(Build(a), Build(b));
    }
  }

  /** No two records share a normalised key. */
  ghost predicate KeysApart(records: seq<Record>) {
    forall i, j | 0 <= i < j < |records| :: Normalize(records[i].key) != Normalize(records[j].key)
  }

  /** When keys are apart, each record is what its key maps to. */
  lemma {:induction false} MemberIsContent(records: seq<Record>, i: nat)
    requires KeysApart(records) && i < |records|
    ensures Lookup(Contents(records), Normalize(records[i].key)) == Some(ValueHash(records[i]))
  {
    if i < |records| - 1 { MemberIsContent(records[..|records| - 1], i); }
  }

  /** Every content is some record's. */
  lemma {:induction false} ContentsComeFromRecords(records: seq<Record>, q: string, v: Digest)
    requires Lookup(Contents(records), q) == Some(v)
    ensures exists r :: r in records && Normalize(r.key) == q && ValueHash(r) == v
  {
    var n := |records| - 1;
    if Normalize(records[n].key) == q {
      assert records[n] in records;
    } else {
      ContentsComeFromRecords(records[..n], q, v);
    }
  }

  lemma ContentsAreMembers(a: seq<Record>, b: seq<Record>, q: string)
    requires KeysApart(b) && forall r | r in a :: r in b
    ensures Lookup(Contents(a), q).Some? ==> Lookup(Contents(b), q) == Lookup(Contents(a), q)
  {
    if Lookup(Contents(a), q).Some? {
      ContentsComeFromRecords(a, q, Contents(a)[q]);
      var r :| r in a && Normalize(r.key) == q && ValueHash(r) == Contents(a)[q];
      var i :| 0 <= i < |b| && b[i] == r;
      MemberIsContent(b, i);
    }
  }

  /** Insertion order is immaterial: two lists of the same records, with no key twice, have one root. */
  lemma RootIgnoresOrder(a: seq<Record>, b: seq<Record>)
    requires KeysApart(a) && KeysApart(b) && forall r :: r in a <==> r in b
    ensures Root(Build(a)) == Root(Build(b))
  {
    var ca, cb := Contents(a), Contents(b);
    forall q ensures Lookup(ca, q) == Lookup(cb, q) {
      ContentsAreMembers(a, b, q);
      ContentsAreMembers(b, a, q);
    }
    forall q | q in ca ensures q in cb && ca[q] == cb[q] { assert Lookup(ca, q) == Lookup(cb, q); }
    forall q | q in cb ensures q in ca { assert Lookup(ca, q) == Lookup(cb, q); }
    assert ca == cb;
    RootsAgreeIffContentsAgree(a, b);
  }

  // ----- proofs -----

  datatype ProofItem = ProofItem(value: Option<Digest>, children: seq<Entry>)

  function ItemHash(item: ProofItem): Digest {
    NodeHash(item.value, item.children)
  }

  function ItemOf(t: Trie): ProofItem {
    ProofItem(t.value, SortedEntries(ChildDigests(t)))
  }

  /** The honest proof: one item per node from the root down the path. */
  function Prove(t: Trie, path: string): Option<seq<ProofItem>>
    decreases |path|
  {
    if path == "" then Some([ItemOf(t)])
    else if path[0] !in t.children then None
    else match Prove(t.children[path[0]], path[1..])
      case None => None
      case Some(rest) => Some([ItemOf(t)] + rest)
  }

  /** First child entry of that nibble. */
  function FindChild(children: seq<Entry>, nibble: char): Option<Digest> {
    if children == [] then None
    else if children[0].nibble == nibble then Some(children[0].hash)
    else FindChild(children[1..], nibble)
  }

  predicate Accepts(path: string, expected: Option<Digest>, proof: seq<ProofItem>, root: Digest)
    decreases |proof|
  {
    && proof != []
    && ItemHash(proof[0]) == root
    && if path == "" then proof[0].value == expected
       else match FindChild(proof[0].children, path[0])
         case None => false
         case Some(h) => Accepts(path[1..], expected, proof[1..], h)
  }

  lemma FoundChildIsListed(children: seq<Entry>, nibble: char)
    ensures match FindChild(children, nibble)
            case Some(h) => Entry(nibble, h) in children
            case None => forall e | e in children :: e.nibble != nibble
  {
    if children == [] {
    } else {
      FoundChildIsListed(children[1..], nibble);
    }
  }

  /** An item with the node's digest names exactly the node's value and children. */
  lemma ItemMatchesNode(t: Trie, item: ProofItem, nibble: char)
    requires ItemHash(item) == Root(t)
    ensures item.value == t.value
    ensures FindChild(item.children, nibble) ==
            if nibble in t.children then Some(Root(t.children[nibble])) else None
  {
    var entries := SortedEntries(ChildDigests(t));
    SortedEntriesFacts(ChildDigests(t));
    SortIsPermutation(item.children, ByNibble);
    SortIsPermutation(entries, ByNibble);
    assert multiset(item.children) == multiset(entries);
    forall e ensures e in item.children <==> e in entries {
      assert e in multiset(item.children) <==> e in multiset(entries);
    }
    FoundChildIsListed(item.children, nibble);
    if nibble in t.children {
      assert Entry(nibble, ChildDigests(t)[nibble]) in entries;
    }
  }

  /** Acceptance, decided: the path exists, the value is the stored one, and the proof's leading items are the honest
      ones up to the order of their child lists. */
  lemma {:induction false} AcceptsIff(t: Trie, path: string, expected: Option<Digest>, proof: seq<ProofItem>)
    ensures Accepts(path, expected, proof, Root(t)) <==>
            HasPath(t, path) && Get(t, path) == expected && HonestPrefix(t, path, proof)
    decreases |path|
  {
    if proof != [] && ItemHash(proof[0]) == Root(t) && path != "" {
      ItemMatchesNode(t, proof[0], path[0]);
      if path[0] in t.children {
        AcceptsIff(t.children[path[0]], path[1..], expected, proof[1..]);
      }
    } else if proof != [] && ItemHash(proof[0]) == Root(t) {
      ItemMatchesNode(t, proof[0], '0');
    }
  }

  ghost predicate HonestPrefix(t: Trie, path: string, proof: seq<ProofItem>)
    requires HasPath(t, path)
    decreases |path|
  {
    && proof != []
    && ItemHash(proof[0]) == Root(t)
    && (path != "" ==> HonestPrefix(t.children[path[0]], path[1..], proof[1..]))
  }

  lemma {:induction false} ProveIsHonest(t: Trie, path: string)
    ensures Prove(t, path).Some? <==> HasPath(t, path)
    ensures HasPath(t, path) ==> HonestPrefix(t, path, Prove(t, path).value)
    ensures HasPath(t, path) ==> |Prove(t, path).value| == |path| + 1
    decreases |path|
  {
    SortedEntriesFacts(ChildDigests(t));
    SortOfSorted(SortedEntries(ChildDigests(t)), ByNibble);
    if path != "" && path[0] in t.children {
      ProveIsHonest(t.children[path[0]], path[1..]);
    }
  }

  lemma {:induction false} StoredHasPath(t: Trie, path: string)
    requires Get(t, path).Some?
    ensures HasPath(t, path)
    decreases |path|
  {
    if path != "" { StoredHasPath(t.children[path[0]], path[1..]); }
  }

  /** Soundness: whatever the proof, an accepted value is the repository's value. */
  lemma Sound(records: seq<Record>, key: string, v: Digest, proof: seq<ProofItem>)
    requires Accepts(Normalize(key), Some(v), proof, Root(Build(records)))
    ensures Normalize(key) in Contents(records) && Contents(records)[Normalize(key)] == v
  {
    AcceptsIff(Build(records), Normalize(key), Some(v), proof);
    BuildHoldsContents(records);
  }

  /** Completeness: every stored certificate is accepted with the proof the repository makes. */
  lemma Complete(records: seq<Record>, key: string)
    requires Normalize(key) in Contents(records)
    ensures Prove(Build(records), Normalize(key)).Some?
    ensures Accepts(Normalize(key), Some(Contents(records)[Normalize(key)]),
                    Prove(Build(records), Normalize(key)).value, Root(Build(records)))
  {
    var t, path := Build(records), Normalize(key);
    BuildHoldsContents(records);
    StoredHasPath(t, path);
    ProveIsHonest(t, path);
    AcceptsIff(t, path, Get(t, path), Prove(t, path).value);
  }

  /** The record at an index is the last one with its key. */
  ghost predicate IsLast(records: seq<Record>, i: nat) {
    i < |records| && forall j | i < j < |records| :: !SameKey(records[i].key, records[j].key)
  }

  lemma {:induction false} LastIsContent(records: seq<Record>, i: nat)
    requires IsLast(records, i)
    ensures Lookup(Contents(records), Normalize(records[i].key)) == Some(ValueHash(records[i]))
  {
    var n := |records| - 1;
    if i < n {
      SamePathIff(records[i].key, records[n].key);
      assert forall j | i < j < n :: records[..n][j] == records[j];
      LastIsContent(records[..n], i);
    }
  }

  /** Some proof of a listed certificate is accepted if and only if no later record has its key, or the last one that
      does has its value; and then the repository's own proof is. */
  lemma VerifiesIffLast(records: seq<Record>, i: nat, k: nat)
    requires i <= k && IsLast(records, k) && SameKey(records[i].key, records[k].key)
    ensures var path, v := Normalize(records[i].key), Some(ValueHash(records[i]));
            var own := Prove(Build(records), path);
            && own.Some?
            && (Accepts(path, v, own.value, Root(Build(records))) <==> ValueHash(records[i]) == ValueHash(records[k]))
            && ((exists proof :: Accepts(path, v, proof, Root(Build(records)))) <==>
                  ValueHash(records[i]) == ValueHash(records[k]))
  {
    var path, v, t := Normalize(records[i].key), ValueHash(records[i]), Build(records);
    SamePathIff(records[i].key, records[k].key);
    LastIsContent(records, k);
    Complete(records, records[k].key);
    forall proof | Accepts(path, Some(v), proof, Root(t)) ensures v == ValueHash(records[k]) {
      Sound(records, records[i].key, v, proof);
    }
  }

  /** Certificates whose keys differ, up to prefix and letter case, all verify with the repository's own proofs: none
      overwrites another. */
  lemma EveryRecordVerifies(records: seq<Record>, i: nat)
    requires i < |records| && forall a, b | 0 <= a < b < |records| :: !SameKey(records[a].key, records[b].key)
    ensures var path := Normalize(records[i].key);
            var own := Prove(Build(records), path);
            own.Some? && Accepts(path, Some(ValueHash(records[i])), own.value, Root(Build(records)))
  {
    SamePathIff(records[i].key, records[i].key);
    VerifiesIffLast(records, i, i);
  }

  lemma {:induction false} LastItemHoldsValue(t: Trie, path: string, proof: seq<ProofItem>)
    requires HasPath(t, path) && HonestPrefix(t, path, proof) && |proof| == |path| + 1
    ensures proof[|path|].value == Get(t, path)
    decreases |path|
  {
    if path == "" {
      ItemMatchesNode(t, proof[0], '0');
    } else {
      LastItemHoldsValue(t.children[path[0]], path[1..], proof[1..]);
    }
  }

  /** Altering the value in the last item of an honest proof is always rejected. */
  lemma TamperedProofRejected(t: Trie, path: string, forged: Option<Digest>, expected: Option<Digest>)
    requires HasPath(t, path)
    requires var p := Prove(t, path); p.Some? && |p.value| == |path| + 1 && forged != p.value[|path|].value
    ensures var p := Prove(t, path).value;
            !Accepts(path, expected, p[|path| := p[|path|].(value := forged)], Root(t))
  {
    var p := Prove(t, path).value;
    var q := p[|path| := p[|path|].(value := forged)];
    ProveIsHonest(t, path);
    LastItemHoldsValue(t, path, p);
    AcceptsIff(t, path, expected, q);
    if HonestPrefix(t, path, q) {
      LastItemHoldsValue(t, path, q);
      assert false;
    }
  }
}
