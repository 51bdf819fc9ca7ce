/**
 * Pure views of the manager's parallel lists. Each list of waiting entries is
 * paired by position with a list of keys (a downloader or a listener per entry);
 * these functions say which entries an operation keeps, removes and reports.
 */
module Waiting {

  /** The entries of `xs` whose key is not `k`, in their original order. */
  function Without<K(==), T>(ks: seq<K>, xs: seq<T>, k: K): seq<T>
    requires |ks| == |xs|
  {
    if ks == [] then [] else (if ks[0] == k then [] else [xs[0]]) + Without(ks[1..], xs[1..], k)
  }

  /** The entries of `xs` whose key is `k`, in their original (registration) order. */
  function Paired<K(==), T>(ks: seq<K>, xs: seq<T>, k: K): seq<T>
    requires |ks| == |xs|
  {
    if ks == [] then [] else (if ks[0] == k then [xs[0]] else []) + Paired(ks[1..], xs[1..], k)
  }

  function Reverse<T>(s: seq<T>): (r: seq<T>)
    ensures |r| == |s|
  {
    if s == [] then [] else Reverse(s[1..]) + [s[0]]
  }

  /** `list.remove(i)`: the element at `i` leaves, the rest keep their order. */
  function RemoveAt<T>(s: seq<T>, i: nat): (r: seq<T>)
    requires i < |s|
    ensures |r| == |s| - 1
    ensures forall j :: 0 <= j < i ==> r[j] == s[j]
    ensures forall j :: i <= j < |r| ==> r[j] == s[j + 1]
    ensures multiset(r) == multiset(s) - multiset{s[i]}
  {
    assert s == s[..i] + [s[i]] + s[i + 1..];
    s[..i] + s[i + 1..]
  }

  /**
   * `getListenerIndex`: the first position holding the pair (a, b), or -1
   * (LISTENER_NOT_FOUND) when there is none.
   */
  function FirstPairIndex<A(==), B(==)>(xs: seq<A>, ys: seq<B>, a: A, b: B): (r: int)
    requires |xs| == |ys|
    ensures -1 <= r < |xs|
    ensures r >= 0 ==> xs[r] == a && ys[r] == b
    ensures r >= 0 ==> forall j :: 0 <= j < r ==> !(xs[j] == a && ys[j] == b)
    ensures r == -1 <==> forall j :: 0 <= j < |xs| ==> !(xs[j] == a && ys[j] == b)
  {
    if xs == [] then -1
    else if xs[0] == a && ys[0] == b then 0
    else
      var r := FirstPairIndex(xs[1..], ys[1..], a, b);
      if r < 0 then -1 else r + 1
  }

  /** `list.indexOf(x)`: the first position holding `x`, or -1. */
  function FirstIndex<T(==)>(s: seq<T>, x: T): (r: int)
    ensures -1 <= r < |s|
    ensures r >= 0 ==> s[r] == x && forall j :: 0 <= j < r ==> s[j] != x
    ensures r == -1 <==> x !in s
  {
    if s == [] then -1
    else if s[0] == x then 0
    else
      var r := FirstIndex(s[1..], x);
      if r < 0 then -1 else r + 1
  }

  // ---------------------------------------------------------------------------
  // Properties of the views

  /** Every entry either stays or is reported: one report per entry keyed `k`. */
  lemma {:induction false} PairedCount<K, T>(ks: seq<K>, xs: seq<T>, k: K)
    requires |ks| == |xs|
    ensures |Paired(ks, xs, k)| == multiset(ks)[k]
    ensures |Without(ks, xs, k)| + |Paired(ks, xs, k)| == |xs|
  {
    if ks != [] {
      assert ks == [ks[0]] + ks[1..];
      PairedCount(ks[1..], xs[1..], k);
    }
  }

  /** Removing the entries keyed `k` leaves no such key and every other key as often as before. */
  lemma {:induction false} WithoutKeys<K>(ks: seq<K>, k: K)
    ensures multiset(Without(ks, ks, k)) == multiset(ks)[k := 0]
    ensures k !in Without(ks, ks, k)
  {
    if ks != [] {
      assert ks == [ks[0]] + ks[1..];
      WithoutKeys(ks[1..], k);
    }
    assert multiset(Without(ks, ks, k))[k] == 0;
  }

  /** What remains is drawn from the original entries. */
  lemma {:induction false} WithoutSubset<K, T>(ks: seq<K>, xs: seq<T>, k: K)
    requires |ks| == |xs|
    ensures multiset(Without(ks, xs, k)) <= multiset(xs)
  {
    if ks != [] {
      assert xs == [xs[0]] + xs[1..];
      WithoutSubset(ks[1..], xs[1..], k);
    }
  }

  /** When no entry is keyed `k` nothing is removed. */
  lemma {:induction false} WithoutAbsent<K, T>(ks: seq<K>, xs: seq<T>, k: K)
    requires |ks| == |xs| && k !in ks
    ensures Without(ks, xs, k) == xs
  {
    if ks != [] {
      assert ks[0] != k;
      WithoutAbsent(ks[1..], xs[1..], k);
      assert xs == [xs[0]] + xs[1..];
    }
  }

  /** Removing one entry keyed `k` does not change what remains after removing them all. */
  lemma {:induction false} WithoutRemoveAt<K, T>(ks: seq<K>, xs: seq<T>, k: K, i: nat)
    requires |ks| == |xs| && i < |ks| && ks[i] == k
    ensures Without(RemoveAt(ks, i), RemoveAt(xs, i), k) == Without(ks, xs, k)
  {
    if i > 0 {
      WithoutRemoveAt(ks[1..], xs[1..], k, i - 1);
      RemoveAtCons(ks, i);
      RemoveAtCons(xs, i);
    } else {
      assert RemoveAt(ks, 0) == ks[1..] && RemoveAt(xs, 0) == xs[1..];
    }
  }

  /** Removing a later position leaves the head in front. */
  lemma RemoveAtCons<T>(s: seq<T>, i: nat)
    requires 0 < i < |s|
    ensures RemoveAt(s, i) == [s[0]] + RemoveAt(s[1..], i - 1)
  {
    assert s[..i] == [s[0]] + s[1..][..i - 1];
    assert s[i + 1..] == s[1..][i..];
  }

  /** The first step of a scan from the back: entry `i` joins what the suffix kept. */
  lemma WithoutStep<K, T>(ks: seq<K>, xs: seq<T>, k: K, i: nat)
    requires |ks| == |xs| && i < |ks|
    ensures Without(ks[i..], xs[i..], k) == (if ks[i] == k then [] else [xs[i]]) + Without(ks[i + 1..], xs[i + 1..], k)
    ensures Paired(ks[i..], xs[i..], k) == (if ks[i] == k then [xs[i]] else []) + Paired(ks[i + 1..], xs[i + 1..], k)
  {
    assert ks[i..][1..] == ks[i + 1..] && xs[i..][1..] == xs[i + 1..];
  }

  /** A scan from the back that has handled positions `i` onwards: the prefix untouched, the rest filtered. */
  function Scanned<K(==), T>(ks: seq<K>, xs: seq<T>, k: K, i: nat): seq<T>
    requires |ks| == |xs| && i <= |ks|
  {
    xs[..i] + Without(ks[i..], xs[i..], k)
  }

  /**
   * One step of a scan from the back that removes the entries keyed `k`: entry `i`
   * is still in place, and removing it when it is keyed `k` handles position `i`.
   */
  lemma ScanStep<K, T>(ks: seq<K>, xs: seq<T>, k: K, i: nat)
    requires |ks| == |xs| && i < |ks|
    ensures i < |Scanned(ks, xs, k, i + 1)| && Scanned(ks, xs, k, i + 1)[i] == xs[i]
    ensures (if ks[i] == k then RemoveAt(Scanned(ks, xs, k, i + 1), i) else Scanned(ks, xs, k, i + 1))
            == Scanned(ks, xs, k, i)
  {
    WithoutStep(ks, xs, k, i);
    assert xs[..i + 1] == xs[..i] + [xs[i]];
    RemoveAtJoin(xs[..i], xs[i], Without(ks[i + 1..], xs[i + 1..], k));
  }

  /** A scan that has handled every position has filtered the whole list. */
  lemma ScannedAll<K, T>(ks: seq<K>, xs: seq<T>, k: K)
    requires |ks| == |xs|
    ensures Scanned(ks, xs, k, 0) == Without(ks, xs, k)
    ensures Scanned(ks, xs, k, |ks|) == xs
  {
    assert xs[..0] == [] && ks[0..] == ks && xs[0..] == xs;
    assert xs[..|ks|] == xs && ks[|ks|..] == [] && xs[|ks|..] == [];
  }

  /** The same step for the entries a scan from the back reports: the one at `i` comes last. */
  lemma ScanStepReported<K, T>(ks: seq<K>, xs: seq<T>, k: K, i: nat)
    requires |ks| == |xs| && i < |ks|
    ensures Reverse(Paired(ks[i..], xs[i..], k))
            == Reverse(Paired(ks[i + 1..], xs[i + 1..], k)) + (if ks[i] == k then [xs[i]] else [])
  {
    WithoutStep(ks, xs, k, i);
    if ks[i] == k {
      ReverseCons(xs[i], Paired(ks[i + 1..], xs[i + 1..], k));
    } else {
      assert Paired(ks[i..], xs[i..], k) == Paired(ks[i + 1..], xs[i + 1..], k);
    }
  }

  /** Reversal lists the entries from the last to the first. */
  lemma {:induction false} ReverseAt<T>(s: seq<T>, j: nat)
    requires j < |s|
    ensures Reverse(s)[j] == s[|s| - 1 - j]
  {
    if j < |s| - 1 {
      ReverseAt(s[1..], j);
    }
  }

  lemma {:induction false} ReverseMultiset<T>(s: seq<T>)
    ensures multiset(Reverse(s)) == multiset(s)
  {
    if s != [] {
      ReverseMultiset(s[1..]);
      assert s == [s[0]] + s[1..];
    }
  }

  // ---------------------------------------------------------------------------
  // Pairs of parallel lists

  /** Two parallel lists read as one list of pairs. */
  function Zip<A, B>(xs: seq<A>, ys: seq<B>): (r: seq<(A, B)>)
    requires |xs| == |ys|
    ensures |r| == |xs|
    ensures forall j :: 0 <= j < |r| ==> r[j] == (xs[j], ys[j])
  {
    seq(|xs|, j requires 0 <= j < |xs| => (xs[j], ys[j]))
  }

  lemma ZipAppend<A, B>(xs: seq<A>, ys: seq<B>, a: A, b: B)
    requires |xs| == |ys|
    ensures Zip(xs + [a], ys + [b]) == Zip(xs, ys) + [(a, b)]
  {
    assert forall j :: 0 <= j < |xs| ==> (xs + [a])[j] == xs[j] && (ys + [b])[j] == ys[j];
  }

  /** Removing position `i` from both lists removes the pair at `i`. */
  lemma ZipRemoveAt<A, B>(xs: seq<A>, ys: seq<B>, i: nat)
    requires |xs| == |ys| && i < |xs|
    ensures Zip(RemoveAt(xs, i), RemoveAt(ys, i)) == RemoveAt(Zip(xs, ys), i)
  {
  }

  /** Searching two lists for a pair is searching their zip for it. */
  lemma FirstPairIndexZip<A, B>(xs: seq<A>, ys: seq<B>, a: A, b: B)
    requires |xs| == |ys|
    ensures FirstPairIndex(xs, ys, a, b) == FirstIndex(Zip(xs, ys), (a, b))
    ensures FirstPairIndex(xs, ys, a, b) >= 0 <==> (a, b) in Zip(xs, ys)
  {
  }

  /** Appending an entry and then removing the first equal one leaves the same entries. */
  lemma RemoveFirstAppended<T>(s: seq<T>, x: T)
    ensures x in s + [x]
    ensures multiset(RemoveAt(s + [x], FirstIndex(s + [x], x))) == multiset(s)
  {
    var i := FirstIndex(s + [x], x);
    assert (s + [x])[|s|] == x;
    assert multiset(s + [x]) == multiset(s) + multiset{x};
  }

  /** Removing position |p| of p + [x] + w leaves p + w. */
  lemma RemoveAtJoin<T>(p: seq<T>, x: T, w: seq<T>)
    ensures RemoveAt(p + [x] + w, |p|) == p + w
  {
  }

  lemma ReverseCons<T>(x: T, s: seq<T>)
    ensures Reverse([x] + s) == Reverse(s) + [x]
  {
    assert ([x] + s)[1..] == s;
  }

  /** Every entry is either kept or reported, never both and never lost. */
  lemma {:induction false} WithoutPairedPartition<K, T>(ks: seq<K>, xs: seq<T>, k: K)
    requires |ks| == |xs|
    ensures multiset(Without(ks, xs, k)) + multiset(Paired(ks, xs, k)) == multiset(xs)
  {
    if ks != [] {
      WithoutPairedPartition(ks[1..], xs[1..], k);
      assert xs == [xs[0]] + xs[1..];
    }
  }

  /** A relation holding position by position between two lists keyed alike survives the removal. */
  lemma {:induction false} WithoutPointwise<K, A, B>(ks: seq<K>, xs: seq<A>, ys: seq<B>, k: K, rel: (A, B) -> bool)
    requires |ks| == |xs| == |ys|
    requires forall j :: 0 <= j < |xs| ==> rel(xs[j], ys[j])
    ensures |Without(ks, xs, k)| == |Without(ks, ys, k)|
    ensures forall j :: 0 <= j < |Without(ks, xs, k)| ==> rel(Without(ks, xs, k)[j], Without(ks, ys, k)[j])
  {
    if ks != [] {
      assert forall j :: 0 <= j < |xs| - 1 ==> xs[1..][j] == xs[j + 1] && ys[1..][j] == ys[j + 1];
      WithoutPointwise(ks[1..], xs[1..], ys[1..], k, rel);
    }
  }
}
