/** Total orders, and the sorting library calls the indexes and the dependency graph are built on. */
module Orders {
  import opened Prelude

  ghost predicate TotalOrder<T(!new)>(le: (T, T) -> bool) {
    && (forall a, b :: le(a, b) || le(b, a))
    && (forall a, b :: le(a, b) && le(b, a) ==> a == b)
    && (forall a, b, c :: le(a, b) && le(b, c) ==> le(a, c))
  }

  ghost predicate Sorted<T>(s: seq<T>, le: (T, T) -> bool) {
    forall i, j :: 0 <= i < j < |s| ==> le(s[i], s[j])
  }

  ghost predicate StrictlySorted<T>(s: seq<T>, le: (T, T) -> bool) {
    forall i, j :: 0 <= i < j < |s| ==> le(s[i], s[j]) && s[i] != s[j]
  }

  ghost predicate Distinct<T>(s: seq<T>) {
    forall i, j :: 0 <= i < j < |s| ==> s[i] != s[j]
  }

  ghost function Elements<T>(s: seq<T>): set<T> {
    set x | x in s
  }

  predicate NatLe(a: nat, b: nat) {
    a <= b
  }

  predicate PairLe(a: (nat, nat), b: (nat, nat)) {
    a.0 < b.0 || (a.0 == b.0 && a.1 <= b.1)
  }

  /** The library sort: insertion keeps equal elements, so the result is a permutation. */
  function Insert<T(!new)>(x: T, s: seq<T>, le: (T, T) -> bool): (r: seq<T>)
    ensures multiset(r) == multiset(s) + multiset{x}
  {
    if s == [] then [x]
    else
      assert s == [s[0]] + s[1..];
      if le(x, s[0]) then [x] + s else [s[0]] + Insert(x, s[1..], le)
  }

  lemma {:induction false} InsertSorted<T(!new)>(x: T, s: seq<T>, le: (T, T) -> bool)
    requires TotalOrder(le) && Sorted(s, le)
    ensures Sorted(Insert(x, s, le), le)
  {
    if s != [] {
      assert forall k :: 1 <= k < |s| ==> le(s[0], s[k]);
      if le(x, s[0]) {
        assert forall k :: 0 <= k < |s| ==> le(x, s[k]);
      } else {
        InsertSorted(x, s[1..], le);
        var tail := Insert(x, s[1..], le);
        forall k | 0 <= k < |tail| ensures le(s[0], tail[k]) {
          assert tail[k] in multiset(tail);
          assert tail[k] == x || tail[k] in s[1..];
        }
      }
    }
  }

  function Sort<T(!new)>(s: seq<T>, le: (T, T) -> bool): (r: seq<T>)
    ensures multiset(r) == multiset(s)
  {
    if s == [] then []
    else
      assert s == [s[0]] + s[1..];
      Insert(s[0], Sort(s[1..], le), le)
  }

  lemma {:induction false} SortSorts<T(!new)>(s: seq<T>, le: (T, T) -> bool)
    requires TotalOrder(le)
    ensures Sorted(Sort(s, le), le)
  {
    if s != [] {
      SortSorts(s[1..], le);
      InsertSorted(s[0], Sort(s[1..], le), le);
    }
  }

  lemma SortKeepsElements<T(!new)>(s: seq<T>, le: (T, T) -> bool)
    ensures |Sort(s, le)| == |s|
    ensures forall x :: x in Sort(s, le) <==> x in s
  {
    var r := Sort(s, le);
    assert |multiset(r)| == |multiset(s)|;
    forall x ensures x in r <==> x in s {
      assert x in multiset(r) <==> x in multiset(s);
    }
  }

  /** Sorting a list without repetition gives a strictly ascending list. */
  lemma SortDistinct<T(!new)>(s: seq<T>, le: (T, T) -> bool)
    requires TotalOrder(le) && Distinct(s)
    ensures StrictlySorted(Sort(s, le), le)
  {
    var r := Sort(s, le);
    SortSorts(s, le);
    DistinctMultiset(s);
    forall i, j | 0 <= i < j < |r| ensures r[i] != r[j] {
      if r[i] == r[j] {
        CountedTwice(r, i, j);
        assert false;
      }
    }
  }

  lemma CountedTwice<T(!new)>(s: seq<T>, i: nat, j: nat)
    requires i < j < |s| && s[i] == s[j]
    ensures multiset(s)[s[j]] >= 2
  {
    assert s == s[..j] + [s[j]] + s[j + 1..];
    assert s[..j][i] == s[i];
    assert s[i] in multiset(s[..j]);
  }

  lemma {:induction false} DistinctMultiset<T(!new)>(s: seq<T>)
    requires Distinct(s)
    ensures forall x :: multiset(s)[x] <= 1
  {
    if s != [] {
      assert s == [s[0]] + s[1..];
      DistinctMultiset(s[1..]);
      assert s[0] !in s[1..];
    }
  }

  /** Removes consecutive repetitions, as the library `dedup` does. */
  function Dedup<T(==)>(s: seq<T>): (r: seq<T>)
    ensures |r| <= |s|
    ensures s != [] ==> r != [] && r[0] == s[0]
  {
    if |s| < 2 then s
    else if s[0] == s[1] then Dedup(s[1..])
    else [s[0]] + Dedup(s[1..])
  }

  /** On a sorted list `dedup` keeps every value and makes the list strictly ascending. */
  lemma {:induction false} DedupSorted<T(!new)>(s: seq<T>, le: (T, T) -> bool)
    requires TotalOrder(le) && Sorted(s, le)
    ensures StrictlySorted(Dedup(s), le)
    ensures forall x :: x in Dedup(s) <==> x in s
  {
    if |s| >= 2 {
      DedupSorted(s[1..], le);
      var tail := Dedup(s[1..]);
      assert forall x :: x in s <==> x == s[0] || x in s[1..];
      if s[0] != s[1] {
        forall k | 0 <= k < |tail| ensures le(s[0], tail[k]) && s[0] != tail[k] {
          assert tail[k] in s[1..];
          assert le(s[1], tail[k]);
        }
      }
    }
  }

  lemma NatOrders()
    ensures TotalOrder(NatLe) && TotalOrder(PairLe)
  {
  }

  /** `partition_point`: how many leading elements satisfy `p`. */
  function PartitionPoint<T>(s: seq<T>, p: T -> bool): (r: nat)
    ensures r <= |s|
    ensures forall i :: 0 <= i < r ==> p(s[i])
    ensures r < |s| ==> !p(s[r])
  {
    if s == [] || !p(s[0]) then 0 else 1 + PartitionPoint(s[1..], p)
  }

  /** The library binary search on a strictly ascending list. */
  method BinarySearch<T(==, !new)>(s: seq<T>, x: T, le: (T, T) -> bool) returns (r: Option<nat>)
    requires TotalOrder(le) && StrictlySorted(s, le)
    ensures r.Some? <==> x in s
    ensures r.Some? ==> r.value < |s| && s[r.value] == x
  {
    var low, high := 0, |s|;
    while low < high
      invariant 0 <= low <= high <= |s|
      invariant forall k :: 0 <= k < low ==> s[k] != x
      invariant forall k :: high <= k < |s| ==> s[k] != x
    {
      var middle := low + (high - low) / 2;
      if s[middle] == x {
        return Some(middle);
      }
      if le(s[middle], x) {
        assert forall k :: 0 <= k < middle ==> le(s[k], s[middle]);
        low := middle + 1;
      } else {
        assert forall k :: middle < k < |s| ==> le(s[middle], s[k]);
        high := middle;
      }
    }
    r := None;
  }

  /** Lexicographic order on sequences, as derived for strings. */
  predicate SeqLe<T(==)>(le: (T, T) -> bool, a: seq<T>, b: seq<T>) {
    if a == [] then true
    else if b == [] then false
    else if a[0] == b[0] then SeqLe(le, a[1..], b[1..])
    else le(a[0], b[0])
  }

  function BySeq<T(==)>(le: (T, T) -> bool): (seq<T>, seq<T>) -> bool {
    (a, b) => SeqLe(le, a, b)
  }

  lemma {:induction false} SeqLeTotal<T(!new)>(le: (T, T) -> bool, a: seq<T>, b: seq<T>)
    requires TotalOrder(le)
    ensures SeqLe(le, a, b) || SeqLe(le, b, a)
    ensures SeqLe(le, a, b) && SeqLe(le, b, a) ==> a == b
  {
    if a != [] && b != [] && a[0] == b[0] {
      SeqLeTotal(le, a[1..], b[1..]);
      assert a == [a[0]] + a[1..] && b == [b[0]] + b[1..];
    }
  }

  lemma {:induction false} SeqLeTransitive<T(!new)>(le: (T, T) -> bool, a: seq<T>, b: seq<T>, c: seq<T>)
    requires TotalOrder(le) && SeqLe(le, a, b) && SeqLe(le, b, c)
    ensures SeqLe(le, a, c)
  {
    if a != [] && a[0] == b[0] && b[0] == c[0] {
      SeqLeTransitive(le, a[1..], b[1..], c[1..]);
    }
  }

  lemma SeqOrder<T(!new)>(le: (T, T) -> bool)
    requires TotalOrder(le)
    ensures TotalOrder(BySeq(le))
  {
    forall a: seq<T>, b: seq<T> ensures SeqLe(le, a, b) || SeqLe(le, b, a) { SeqLeTotal(le, a, b); }
    forall a: seq<T>, b: seq<T> | SeqLe(le, a, b) && SeqLe(le, b, a) ensures a == b { SeqLeTotal(le, a, b); }
    forall a: seq<T>, b: seq<T>, c: seq<T> | SeqLe(le, a, b) && SeqLe(le, b, c) ensures SeqLe(le, a, c) {
      SeqLeTransitive(le, a, b, c);
    }
  }
}
