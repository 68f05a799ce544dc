/** Addresses, the form they take in keys, and the flat keys of main accounts and sub-accounts. */
module Addresses {

  /** An address as written, with the form it takes in keys. */
  datatype Address = Address(text: string, key: string)

  /** A main account, or an address's sub-account inside a contract. */
  datatype Key = Main(addr: string) | Sub(exec: Address, addr: string)

  predicate IsHexDigit(c: char) {
    '0' <= c <= '9' || 'a' <= c <= 'f' || 'A' <= c <= 'F'
  }

  predicate AreHexDigits(s: string) {
    forall i | 0 <= i < |s| :: IsHexDigit(s[i])
  }

  /** Forty hex digits, with or without 0x. */
  predicate IsEthAddress(addr: string) {
    var digits := if |addr| >= 2 && addr[0] == '0' && (addr[1] == 'x' || addr[1] == 'X') then addr[2..] else addr;
    |digits| == 40 && AreHexDigits(digits)
  }

  function ToLower(s: string): string {
    seq(|s|, i requires 0 <= i < |s| => if 'A' <= s[i] <= 'Z' then (s[i] - 'A') + 'a' else s[i])
  }

  /** The form an address takes in keys: Ethereum addresses are folded to lower case. */
  function FormatAddrKey(addr: string): string {
    if IsEthAddress(addr) then ToLower(addr) else addr
  }

  /** The same character, up to letter case. */
  ghost predicate SameLetter(a: char, b: char) {
    a == b || ('A' <= a <= 'Z' && b as int == a as int + 32) || ('A' <= b <= 'Z' && a as int == b as int + 32)
  }

  const HEX_DIGITS := "0123456789abcdefABCDEF"

  lemma HexDigitIff(c: char)
    ensures IsHexDigit(c) <==> c in HEX_DIGITS
  {
    if IsHexDigit(c) {
      var i := if c <= '9' then c as int - '0' as int
               else if c >= 'a' then c as int - 'a' as int + 10 else c as int - 'A' as int + 16;
      assert HEX_DIGITS[i] == c;
    }
  }

  ghost predicate AreListed(s: string) {
    forall c {:trigger c in s} | c in s :: c in HEX_DIGITS
  }

  lemma DigitsAreListed(s: string)
    ensures AreHexDigits(s) <==> AreListed(s)
  {
    forall i | 0 <= i < |s| ensures IsHexDigit(s[i]) <==> s[i] in HEX_DIGITS { HexDigitIff(s[i]); }
    if AreListed(s) {
      forall i | 0 <= i < |s| ensures IsHexDigit(s[i]) { assert s[i] in s; }
    }
  }

  /** The address is forty hex digits behind a prefix. */
  ghost predicate SpellsEth(addr: string, prefix: string, digits: string) {
    addr == prefix + digits && |digits| == 40 && AreListed(digits)
  }

  /** The optional prefix of an Ethereum address. */
  ghost predicate EthPrefix(p: string) {
    p == "" || (|p| == 2 && p[0] == '0' && (p[1] == 'x' || p[1] == 'X'))
  }

  /** An Ethereum address is forty hex digits, alone or behind 0x or 0X. */
  lemma EthAddressIff(addr: string)
    ensures IsEthAddress(addr) <==> exists p, d :: EthPrefix(p) && SpellsEth(addr, p, d)
  {
    if IsEthAddress(addr) {
      EthIsSpelled(addr);
    }
    if p, d :| EthPrefix(p) && SpellsEth(addr, p, d) {
      SpelledIsEth(addr, p, d);
    }
  }

  lemma EthIsSpelled(addr: string)
    requires IsEthAddress(addr)
    ensures exists p, d :: EthPrefix(p) && SpellsEth(addr, p, d)
  {
    var n := if |addr| >= 2 && addr[0] == '0' && (addr[1] == 'x' || addr[1] == 'X') then 2 else 0;
    var p, d := addr[..n], if n == 2 then addr[2..] else addr;
    assert addr == p + d && EthPrefix(p);
    DigitsAreListed(d);
    assert SpellsEth(addr, p, d);
  }

  lemma SpelledIsEth(addr: string, p: string, d: string)
    requires EthPrefix(p) && SpellsEth(addr, p, d)
    ensures IsEthAddress(addr)
  {
    DigitsAreListed(d);
    if p == "" {
      assert addr == d && IsHexDigit(d[1]);
    } else {
      assert addr[0] == p[0] && addr[1] == p[1] && addr[2..] == d;
    }
  }

  lemma LowerKeepsEth(addr: string)
    requires IsEthAddress(addr)
    ensures IsEthAddress(ToLower(addr))
  {
    EthSecondChar(addr);
    var low := ToLower(addr);
    if |addr| == 42 {
      forall i | 0 <= i < 40 ensures IsHexDigit(low[2..][i]) { assert IsHexDigit(addr[2..][i]); }
    } else {
      forall i | 0 <= i < 40 ensures IsHexDigit(low[i]) { assert IsHexDigit(addr[i]); }
    }
  }

  /** Two addresses take one form in keys exactly when they are equal, or Ethereum addresses that agree character by
      character up to letter case. */
  lemma SameFormIff(a: string, b: string)
    ensures FormatAddrKey(a) == FormatAddrKey(b) <==>
            || a == b
            || (IsEthAddress(a) && IsEthAddress(b) && |a| == |b| && forall i | 0 <= i < |a| :: SameLetter(a[i], b[i]))
  {
    var x, y := ToLower(a), ToLower(b);
    if IsEthAddress(a) { LowerKeepsEth(a); }
    if IsEthAddress(b) { LowerKeepsEth(b); }
    if |a| == |b| {
      forall i | 0 <= i < |a| ensures x[i] == y[i] <==> SameLetter(a[i], b[i]) {
      }
    }
    assert x == y ==> |a| == |b| && forall i | 0 <= i < |a| :: x[i] == y[i] && SameLetter(a[i], b[i]);
  }

  /** An address without ':' that does not start with "exec-". */
  predicate Clean(addr: string) {
    ':' !in addr && !("exec-" <= addr)
  }

  lemma FormatKeepsClean(addr: string)
    requires Clean(addr)
    ensures Clean(FormatAddrKey(addr))
  {
    if IsEthAddress(addr) {
      var f := FormatAddrKey(addr);
      forall i | 0 <= i < |f| ensures f[i] != ':' {
        assert addr[i] in addr;
      }
      assert "exec-" <= f ==> f[0] == 'e' && f[1] == 'x';
      EthSecondChar(addr);
    }
  }

  /** Only after a leading zero can the second character be an x. */
  lemma EthSecondChar(addr: string)
    requires IsEthAddress(addr)
    ensures |addr| >= 40 && (ToLower(addr)[1] == 'x' ==> ToLower(addr)[0] == '0')
  {
    assert addr[0] != '0' ==> IsHexDigit(addr[1]);
  }

  /** Two spellings of one address. */
  function LowSpelling(): string {
    seq(40, _ => 'a')
  }

  function HighSpelling(): string {
    seq(40, _ => 'A')
  }

  lemma SpellingsExist()
    ensures var a, b := LowSpelling(), HighSpelling();
            a != b && FormatAddrKey(a) == FormatAddrKey(b) && Clean(a) && Clean(b)
  {
    var a, b := LowSpelling(), HighSpelling();
    assert a[0] != b[0] && a[0] != "exec-"[0] && b[0] != "exec-"[0];
    assert |a| == |b| == 40 && forall i | 0 <= i < 40 :: IsHexDigit(a[i]) && IsHexDigit(b[i]);
    assert IsEthAddress(a) && IsEthAddress(b);
    assert ToLower(a) == ToLower(b);
  }

  function AddressOf(text: string): Address {
    Address(text, FormatAddrKey(text))
  }

  predicate CleanKey(k: Key) {
    match k
    case Main(a) => Clean(a)
    case Sub(e, a) => ':' !in e.text && ':' !in a && e == AddressOf(e.text)
  }

  function Flat(prefix: string, k: Key): string {
    match k
    case Main(a) => prefix + a
    case Sub(e, a) => prefix + "exec-" + e.text + ":" + a
  }

  function FirstColon(s: string): nat {
    if s == "" || s[0] == ':' then 0 else 1 + FirstColon(s[1..])
  }

  lemma {:induction false} ColonAfter(e: string, a: string)
    requires ':' !in e
    ensures FirstColon(e + ":" + a) == |e|
  {
    if e == "" {
      assert e + ":" + a == ":" + a;
    } else {
      assert (e + ":" + a)[1..] == e[1..] + ":" + a;
      ColonAfter(e[1..], a);
    }
  }

  lemma SplitAtColon(e: string, a: string, f: string, b: string)
    requires ':' !in e && ':' !in f && e + ":" + a == f + ":" + b
    ensures e == f && a == b
  {
    var s, t := e + ":" + a, f + ":" + b;
    ColonAfter(e, a);
    ColonAfter(f, b);
    assert s[..|e|] == e && t[..|f|] == f;
    assert s[|e| + 1..] == a && t[|f| + 1..] == b;
  }

  /** What follows the prefix in a flat key. */
  function Rest(k: Key): string {
    match k
    case Main(a) => a
    case Sub(e, a) => "exec-" + (e.text + ":" + a)
  }

  lemma Regroup(p: string, x: string, e: string, c: string, a: string)
    ensures p + x + e + c + a == p + (x + (e + c + a))
    ensures (p + (x + (e + c + a)))[|p|..] == x + (e + c + a)
    ensures x <= x + (e + c + a)
  {
  }

  lemma FlatRest(prefix: string, k: Key)
    requires CleanKey(k)
    ensures Flat(prefix, k) == prefix + Rest(k) && Flat(prefix, k)[|prefix|..] == Rest(k)
    ensures "exec-" <= Rest(k) <==> k.Sub?
  {
    match k {
      case Main(a) =>
      case Sub(e, a) => Regroup(prefix, "exec-", e.text, ":", a);
    }
  }

  lemma FirstColonSplits(s: string)
    requires ':' in s
    ensures FirstColon(s) < |s| && s == s[..FirstColon(s)] + ":" + s[FirstColon(s) + 1..]
  {
    FirstColonIsColon(s);
    SplitAt(s, FirstColon(s), ":");
  }

  lemma SplitAt(s: string, k: nat, middle: string)
    requires k < |s| && middle == [s[k]]
    ensures s == s[..k] + middle + s[k + 1..]
  {
  }

  lemma {:induction false} FirstColonIsColon(s: string)
    requires ':' in s
    ensures FirstColon(s) < |s| && s[FirstColon(s)] == ':'
  {
    if s[0] != ':' { FirstColonIsColon(s[1..]); }
  }

  lemma FlatSub(prefix: string, e: string, a: string)
    ensures Flat(prefix, Sub(AddressOf(e), a)) == prefix + ("exec-" + (e + ":" + a))
    ensures Flat(prefix, Sub(AddressOf(e), a))[|prefix|..] == "exec-" + (e + ":" + a)
  {
    Regroup(prefix, "exec-", e, ":", a);
  }

  lemma SpellsSub(prefix: string, x: string, e: string, a: string)
    ensures Flat(prefix, Main(x)) == Flat(prefix, Sub(AddressOf(e), a)) <==> x == "exec-" + (e + ":" + a)
  {
    FlatSub(prefix, e, a);
    assert Flat(prefix, Main(x))[|prefix|..] == x;
  }

  lemma ColonInside(x: string, e: string, a: string)
    requires x == "exec-" + (e + ":" + a)
    ensures "exec-" <= x && ':' in x[5..]
  {
    assert x[5..] == e + ":" + a && x[5..][|e|] == ':';
  }

  /** A main key is some sub-account's key, too, exactly when it starts with "exec-" and has a colon after that. */
  lemma MainMeetsSubIff(prefix: string, x: string)
    ensures (exists e, a :: Flat(prefix, Main(x)) == Flat(prefix, Sub(AddressOf(e), a))) <==>
              "exec-" <= x && ':' in x[5..]
  {
    if e, a :| Flat(prefix, Main(x)) == Flat(prefix, Sub(AddressOf(e), a)) {
      SpellsSub(prefix, x, e, a);
      ColonInside(x, e, a);
    }
    if "exec-" <= x && ':' in x[5..] {
      var rest := x[5..];
      var k := FirstColon(rest);
      FirstColonSplits(rest);
      assert x == "exec-" + rest;
      SpellsSub(prefix, x, rest[..k], rest[k + 1..]);
    }
  }

  /** Another contract or another address shares the key of a sub-account. */
  ghost predicate Shares(prefix: string, e: string, a: string, f: string, b: string) {
    Sub(AddressOf(f), b) != Sub(AddressOf(e), a)
        && Flat(prefix, Sub(AddressOf(f), b)) == Flat(prefix, Sub(AddressOf(e), a))
  }

  lemma ColonInContract(prefix: string, e: string, a: string) returns (f: string, b: string)
    requires ':' in e
    ensures Shares(prefix, e, a, f, b)
  {
    var k := FirstColon(e);
    FirstColonSplits(e);
    f, b := e[..k], e[k + 1..] + ":" + a;
    SameSplit(prefix, e, a, f, b);
  }

  lemma ColonInAddress(prefix: string, e: string, a: string) returns (f: string, b: string)
    requires ':' in a
    ensures Shares(prefix, e, a, f, b)
  {
    var k := FirstColon(a);
    FirstColonSplits(a);
    f, b := e + ":" + a[..k], a[k + 1..];
    assert f + ":" + b == e + ":" + (a[..k] + ":" + a[k + 1..]);
    SameSplit(prefix, e, a, f, b);
  }

  lemma SameSplit(prefix: string, e: string, a: string, f: string, b: string)
    requires f + ":" + b == e + ":" + a && |f| != |e|
    ensures Shares(prefix, e, a, f, b)
  {
    FlatSub(prefix, e, a);
    FlatSub(prefix, f, b);
  }

  /** A sub-account's key is another sub-account's, too, exactly when the contract or the address has a colon. */
  lemma SubMeetsSubIff(prefix: string, e: string, a: string)
    ensures (exists f, b :: Shares(prefix, e, a, f, b)) <==> ':' in e || ':' in a
  {
    if f, b :| Shares(prefix, e, a, f, b) {
      FlatSub(prefix, e, a);
      FlatSub(prefix, f, b);
      NoOtherSplit(e, a, f, b);
    }
    if ':' in e {
      var f, b := ColonInContract(prefix, e, a);
    } else if ':' in a {
      var f, b := ColonInAddress(prefix, e, a);
    }
  }

  lemma NoOtherSplit(e: string, a: string, f: string, b: string)
    requires "exec-" + (e + ":" + a) == "exec-" + (f + ":" + b) && (e != f || a != b)
    ensures ':' in e || ':' in a
  {
    var s, t := e + ":" + a, f + ":" + b;
    assert s == ("exec-" + s)[5..] == ("exec-" + t)[5..] == t;
    assert t[|f|] == ':';
    if |f| == |e| {
      SameCut(e, a, f, b);
    } else if |f| < |e| {
      assert e[|f|] == s[|f|];
    } else {
      assert a[|f| - |e| - 1] == s[|f|];
    }
  }

  lemma SameCut(e: string, a: string, f: string, b: string)
    requires e + ":" + a == f + ":" + b && |e| == |f|
    ensures e == f && a == b
  {
    var s := e + ":" + a;
    assert e == s[..|e|] == (f + ":" + b)[..|f|] == f && a == s[|e| + 1..] == (f + ":" + b)[|f| + 1..] == b;
  }

  /** Flat keys tell accounts apart: main keys are injective, sub-account keys are injective, and the two kinds never
      meet. */
  lemma FlatIsInjective(prefix: string, k: Key, l: Key)
    requires CleanKey(k) && CleanKey(l) && Flat(prefix, k) == Flat(prefix, l)
    ensures k == l
  {
    FlatRest(prefix, k);
    FlatRest(prefix, l);
    if k.Sub? {
      assert Rest(k)[5..] == k.exec.text + ":" + k.addr && Rest(l)[5..] == l.exec.text + ":" + l.addr;
      SplitAtColon(k.exec.text, k.addr, l.exec.text, l.addr);
    }
  }
}
