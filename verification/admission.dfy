/** Limits on what a registry snapshot may hold (crates/ferrum2-rule/src/registry/limits.rs). */
module Admission {
  import opened MatchSets

  /** What a match set takes up, or how much a snapshot may take up in all. */
  datatype Usage = Usage(entries: nat, expandedBytes: nat, keywordBytes: nat)
  {
    function Plus(other: Usage): Usage {
      Usage(entries + other.entries, expandedBytes + other.expandedBytes, keywordBytes + other.keywordBytes)
    }

    predicate Within(limits: Usage) {
      entries <= limits.entries && expandedBytes <= limits.expandedBytes && keywordBytes <= limits.keywordBytes
    }
  }

  const NOTHING: Usage := Usage(0, 0, 0)

  function Lengths(names: seq<string>): nat {
    if names == [] then 0 else Lengths(names[..|names| - 1]) + |names[|names| - 1]|
  }

  function UsageOf(m: MatchSet): Usage {
    var keywordBytes := Lengths(m.keywords);
    Usage(|m.exact| + |m.suffix| + |m.keywords| + |m.cidrs|, Lengths(m.exact) + Lengths(m.suffix) + keywordBytes,
          keywordBytes)
  }

  predicate More(a: Usage, b: Usage, entries: nat, expandedBytes: nat, keywordBytes: nat) {
    && b.entries == a.entries + entries && b.expandedBytes == a.expandedBytes + expandedBytes
    && b.keywordBytes == a.keywordBytes + keywordBytes
  }

  /** The empty set takes up nothing, and each value what its kind does: every one is an entry, names and keywords count
      their bytes, and keywords count them once more on their own. */
  lemma EachValueCounts(m: MatchSet, name: string, network: Cidr)
    ensures UsageOf(MatchSet([], [], [], [])) == NOTHING
    ensures More(UsageOf(m), UsageOf(m.(cidrs := m.cidrs + [network])), 1, 0, 0)
    ensures More(UsageOf(m), UsageOf(m.(exact := m.exact + [name])), 1, |name|, 0)
    ensures More(UsageOf(m), UsageOf(m.(suffix := m.suffix + [name])), 1, |name|, 0)
    ensures More(UsageOf(m), UsageOf(m.(keywords := m.keywords + [name])), 1, |name|, |name|)
  {
    NameCounts(m, name);
    LengthsNext(m.keywords, name);
  }

  lemma NameCounts(m: MatchSet, name: string)
    ensures More(UsageOf(m), UsageOf(m.(exact := m.exact + [name])), 1, |name|, 0)
    ensures More(UsageOf(m), UsageOf(m.(suffix := m.suffix + [name])), 1, |name|, 0)
  {
    LengthsNext(m.exact, name);
    LengthsNext(m.suffix, name);
  }

  lemma LengthsNext(names: seq<string>, name: string)
    ensures Lengths(names + [name]) == Lengths(names) + |name|
  {
    assert (names + [name])[..|names|] == names;
  }

  function TotalUsage(sets: seq<MatchSet>): Usage {
    if sets == [] then NOTHING else TotalUsage(sets[..|sets| - 1]).Plus(UsageOf(sets[|sets| - 1]))
  }

  /** Sets add up in each of the three respects. */
  lemma TotalUsageNext(sets: seq<MatchSet>, k: nat)
    requires k < |sets|
    ensures TotalUsage(sets[..k + 1]) == TotalUsage(sets[..k]).Plus(UsageOf(sets[k]))
    ensures var one := UsageOf(sets[k]);
      More(TotalUsage(sets[..k]), TotalUsage(sets[..k + 1]), one.entries, one.expandedBytes, one.keywordBytes)
  {
    assert sets[..k + 1][..k] == sets[..k];
  }

  /** What does not fit makes everything that contains it not fit. */
  lemma {:induction false} TotalUsageGrows(sets: seq<MatchSet>, k: nat, limits: Usage)
    requires k <= |sets| && TotalUsage(sets).Within(limits)
    ensures TotalUsage(sets[..k]).Within(limits)
  {
    if k == |sets| {
      assert sets[..k] == sets;
    } else {
      TotalUsageGrows(sets[..|sets| - 1], k, limits);
      assert sets[..|sets| - 1][..k] == sets[..k];
    }
  }

  /** Sets are admitted one by one, up to the first that exceeds a limit; all are exactly if they fit together. */
  method AdmitAll(sets: seq<MatchSet>, limits: Usage) returns (admitted: bool)
    ensures admitted <==> TotalUsage(sets).Within(limits)
    ensures var total := TotalUsage(sets);
      admitted <==>
        && total.entries <= limits.entries && total.expandedBytes <= limits.expandedBytes
        && total.keywordBytes <= limits.keywordBytes
  {
    var usage := NOTHING;
    var k := 0;
    while k < |sets|
      invariant 0 <= k <= |sets|
      invariant usage == TotalUsage(sets[..k]) && usage.Within(limits)
    {
      TotalUsageNext(sets, k);
      usage := usage.Plus(UsageOf(sets[k]));
      k := k + 1;
      if !usage.Within(limits) {
        if TotalUsage(sets).Within(limits) {
          TotalUsageGrows(sets, k, limits);
          assert false;
        }
        return false;
      }
    }
    assert sets[..k] == sets;
    admitted := true;
  }
}
