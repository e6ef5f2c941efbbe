/**
 What a compiled match set means (crates/ferrum2-rule/src/match_set.rs): values within one
 set are alternatives. Addresses are their bits, most significant first.
 */
module MatchSets {
  import opened Prelude
  import opened Orders

  type Bits32 = b: seq<bool> | |b| == 32 witness seq(32, _ => false)
  type Bits128 = b: seq<bool> | |b| == 128 witness seq(128, _ => false)

  datatype IpAddr = V4(bits4: Bits32) | V6(bits6: Bits128)

  datatype Cidr = Net4(length: nat, network4: Bits32) | Net6(length: nat, network6: Bits128)

  datatype MatchSet = MatchSet(exact: seq<string>, suffix: seq<string>, keywords: seq<string>, cidrs: seq<Cidr>)

  datatype Category = Exact | Suffix | Keyword | Ip

  const DOMAIN: set<Category> := {Exact, Suffix, Keyword}
  const ALL: set<Category> := {Exact, Suffix, Keyword, Ip}

  /** What `MatchSetBuilder` accepts: no empty keyword, and networks with no host bit set. */
  predicate WellFormed(m: MatchSet) {
    && (forall k :: k in m.keywords ==> k != "")
    && (forall n :: n in m.cidrs ==> CanonicalCidr(n))
  }

  predicate CanonicalCidr(n: Cidr) {
    match n
    case Net4(length, network) => length <= 32 && forall i :: length <= i < 32 ==> !network[i]
    case Net6(length, network) => length <= 128 && forall i :: length <= i < 128 ==> !network[i]
  }

  /** `suffix` is the whole name, or what follows one of its dots. */
  predicate IsLabelSuffix(domain: string, suffix: string) {
    || suffix == domain
    || (&& |suffix| < |domain|
        && domain[|domain| - |suffix|..] == suffix
        && domain[|domain| - |suffix| - 1] == '.')
  }

  /** `keyword` ends at position `end` of the name. */
  predicate EndsAt(domain: string, end: nat, keyword: string) {
    |keyword| <= end <= |domain| && domain[end - |keyword|..end] == keyword
  }

  predicate Occurs(domain: string, keyword: string) {
    exists end :: 0 <= end <= |domain| && EndsAt(domain, end, keyword)
  }

  /** The address and the network agree on the first `length` bits. */
  predicate Contains(n: Cidr, address: IpAddr) {
    match (n, address)
    case (Net4(length, network), V4(bits)) => length <= 32 && bits[..length] == network[..length]
    case (Net6(length, network), V6(bits)) => length <= 128 && bits[..length] == network[..length]
    case (_, _) => false
  }

  predicate MatchesName(m: MatchSet, categories: set<Category>, domain: string) {
    || (Exact in categories && domain in m.exact)
    || (Suffix in categories && SomeSuffix(m, domain))
    || (Keyword in categories && SomeKeyword(m, domain))
  }

  predicate SomeSuffix(m: MatchSet, domain: string) {
    exists s :: s in m.suffix && IsLabelSuffix(domain, s)
  }

  predicate SomeKeyword(m: MatchSet, domain: string) {
    exists k :: k in m.keywords && Occurs(domain, k)
  }

  predicate MatchesIp(m: MatchSet, categories: set<Category>, address: IpAddr) {
    Ip in categories && exists n :: n in m.cidrs && Contains(n, address)
  }

  predicate Matches(m: MatchSet, categories: set<Category>, domain: Option<string>, address: Option<IpAddr>) {
    || (domain.Some? && MatchesName(m, categories, domain.value))
    || (address.Some? && MatchesIp(m, categories, address.value))
  }

  // Label suffixes, one dot at a time

  function FirstDot(s: string): Option<nat> {
    if s == "" then None
    else if s[0] == '.' then Some(0)
    else match FirstDot(s[1..]) case None => None case Some(i) => Some(i + 1)
  }

  lemma {:induction false} FirstDotIs(s: string)
    ensures FirstDot(s).Some? ==> FirstDot(s).value < |s| && s[FirstDot(s).value] == '.'
    ensures forall i :: 0 <= i < (if FirstDot(s).Some? then FirstDot(s).value else |s|) ==> s[i] != '.'
  {
    if s != "" && s[0] != '.' {
      FirstDotIs(s[1..]);
      var bound := if FirstDot(s).Some? then FirstDot(s).value else |s|;
      forall i | 0 <= i < bound ensures s[i] != '.' {
        assert i > 0 ==> s[i] == s[1..][i - 1];
      }
    }
  }

  /** The suffixes the index probes, longest first. */
  function LabelSuffixes(domain: string): seq<string>
    decreases |domain|
  {
    match FirstDot(domain)
    case None => [domain]
    case Some(dot) => FirstDotIs(domain); [domain] + LabelSuffixes(domain[dot + 1..])
  }

  /** The probes are exactly the label suffixes. */
  lemma {:induction false} LabelSuffixMember(domain: string, suffix: string)
    ensures suffix in LabelSuffixes(domain) <==> IsLabelSuffix(domain, suffix)
    decreases |domain|
  {
    FirstDotIs(domain);
    match FirstDot(domain)
    case None =>
    case Some(dot) =>
      var rest := domain[dot + 1..];
      LabelSuffixMember(rest, suffix);
      ShorterSuffix(domain, dot, suffix);
  }

  lemma ShorterSuffix(domain: string, dot: nat, suffix: string)
    requires dot < |domain| && domain[dot] == '.'
    requires forall i :: 0 <= i < dot ==> domain[i] != '.'
    ensures IsLabelSuffix(domain, suffix) <==> suffix == domain || IsLabelSuffix(domain[dot + 1..], suffix)
  {
    var rest := domain[dot + 1..];
    if |suffix| <= |rest| {
      assert domain[|domain| - |suffix|..] == rest[|rest| - |suffix|..];
      assert |suffix| < |rest| ==> domain[|domain| - |suffix| - 1] == rest[|rest| - |suffix| - 1];
    }
  }

  // Masks

  /** `MAX << (width - length)`: ones, then zeros. */
  function Mask(width: nat, length: nat): (r: seq<bool>)
    requires length <= width
    ensures |r| == width
  {
    seq(width, i => i < length)
  }

  function And(a: seq<bool>, b: seq<bool>): (r: seq<bool>)
    requires |a| == |b|
    ensures |r| == |a|
  {
    seq(|a|, i requires 0 <= i < |a| => a[i] && b[i])
  }

  /** Masking an address gives a canonical network exactly when their prefixes agree. */
  lemma MaskedPrefix(bits: seq<bool>, network: seq<bool>, length: nat)
    requires |bits| == |network| && length <= |bits|
    requires forall i :: length <= i < |network| ==> !network[i]
    ensures And(bits, Mask(|bits|, length)) == network <==> bits[..length] == network[..length]
  {
    var masked := And(bits, Mask(|bits|, length));
    if masked == network {
      forall i | 0 <= i < length ensures bits[..length][i] == network[..length][i] {
        assert masked[i] == bits[i];
      }
    }
    if bits[..length] == network[..length] {
      forall i | 0 <= i < |bits| ensures masked[i] == network[i] {
        assert i < length ==> bits[..length][i] == network[..length][i];
      }
    }
  }

  // The matching rules in other words

  /** A suffix matches the name itself and the names that end in a dot and the suffix. */
  lemma SuffixMeaning(domain: string, suffix: string)
    ensures IsLabelSuffix(domain, suffix) <==> domain == suffix || exists p: string :: domain == p + "." + suffix
  {
    if IsLabelSuffix(domain, suffix) && domain != suffix {
      var p := domain[..|domain| - |suffix| - 1];
      assert domain == p + "." + suffix;
    }
    if p: string :| domain == p + "." + suffix {
      assert domain[|domain| - |suffix|..] == suffix;
    }
  }

  /** A keyword matches the names it is a part of. */
  lemma KeywordMeaning(domain: string, keyword: string)
    ensures Occurs(domain, keyword) <==> exists a: string, b: string :: domain == a + keyword + b
  {
    if end :| 0 <= end <= |domain| && EndsAt(domain, end, keyword) {
      assert domain == domain[..end - |keyword|] + keyword + domain[end..];
    }
    if a: string, b: string :| domain == a + keyword + b {
      assert domain[|a|..|a| + |keyword|] == keyword;
      assert EndsAt(domain, |a| + |keyword|, keyword);
    }
  }

  /** A network contains the addresses of its family that agree with it bit by bit up to its length. */
  lemma NetworkMeaning(length: nat, network: Bits32, bits: Bits32, network6: Bits128, bits6: Bits128)
    ensures Contains(Net4(length, network), V4(bits)) <==>
      length <= 32 && forall i :: 0 <= i < length ==> bits[i] == network[i]
    ensures Contains(Net6(length, network6), V6(bits6)) <==>
      length <= 128 && forall i :: 0 <= i < length ==> bits6[i] == network6[i]
    ensures !Contains(Net4(length, network), V6(bits6)) && !Contains(Net6(length, network6), V4(bits))
  {
    SamePrefix(network, bits, length);
    SamePrefix(network6, bits6, length);
  }

  lemma SamePrefix(a: seq<bool>, b: seq<bool>, length: nat)
    requires |a| == |b|
    ensures length <= |a| ==> (a[..length] == b[..length] <==> forall i :: 0 <= i < length ==> a[i] == b[i])
  {
    if length <= |a| && a[..length] == b[..length] {
      forall i | 0 <= i < length ensures a[i] == b[i] { assert a[..length][i] == b[..length][i]; }
    }
  }

  /** The values of one category match on their own, and each category only by its own values. */
  lemma CategoryMeaning(m: MatchSet, categories: set<Category>, domain: string, address: IpAddr)
    ensures MatchesName(m, categories, domain) <==>
      || (Exact in categories && exists v :: v in m.exact && domain == v)
      || (Suffix in categories && exists v :: v in m.suffix && (domain == v || exists p :: domain == p + "." + v))
      || (Keyword in categories && exists v :: v in m.keywords && exists a, b :: domain == a + v + b)
    ensures MatchesIp(m, categories, address) <==> Ip in categories && exists n :: n in m.cidrs && Contains(n, address)
  {
    forall v | v in m.suffix
      ensures IsLabelSuffix(domain, v) <==> domain == v || exists p :: domain == p + "." + v
    {
      SuffixMeaning(domain, v);
    }
    forall v | v in m.keywords ensures Occurs(domain, v) <==> exists a, b :: domain == a + v + b {
      KeywordMeaning(domain, v);
    }
  }
}
