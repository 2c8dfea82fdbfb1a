/** Sequence and dictionary idioms of Python that the pipeline relies on:
    `zip`, de-duplication in first-seen order (`SELECT DISTINCT` over an
    insertion-ordered table), building a dict where a later key overwrites an
    earlier one, and slicing with Python's index clamping. */
module Seqs {

  function Min(a: int, b: int): int {
    if a <= b then a else b
  }

  function Max(a: int, b: int): int {
    if a >= b then a else b
  }

  /** Python's `zip(a, b)`: pairs up to the shorter length. */
  function Zip<A, B>(a: seq<A>, b: seq<B>): (r: seq<(A, B)>)
    ensures |r| == Min(|a|, |b|)
    ensures forall i :: 0 <= i < |r| ==> r[i] == (a[i], b[i])
  {
    seq(Min(|a|, |b|), i requires 0 <= i < Min(|a|, |b|) => (a[i], b[i]))
  }

  // ---------------------------------------------------------------------------
  // Distinct values in first-seen order
  // ---------------------------------------------------------------------------

  predicate NoDuplicates<T(==)>(xs: seq<T>) {
    forall i, j :: 0 <= i < j < |xs| ==> xs[i] != xs[j]
  }

  /** The distinct values of `xs`, each at the place it is first seen. */
  function Distinct<T(==)>(xs: seq<T>): (r: seq<T>)
    ensures forall i :: 0 <= i < |xs| ==> xs[i] in r
    ensures forall i :: 0 <= i < |r| ==> r[i] in xs
    ensures NoDuplicates(r)
    decreases |xs|
  {
    if |xs| == 0 then []
    else
      var d := Distinct(xs[..|xs| - 1]);
      var last := xs[|xs| - 1];
      assert forall i :: 0 <= i < |xs| - 1 ==> xs[..|xs| - 1][i] == xs[i];
      if last in d then d else d + [last]
  }

  // ---------------------------------------------------------------------------
  // Dictionaries built by successive assignment
  // ---------------------------------------------------------------------------

  /** The dict `{}` after `d[k] = v` for each pair in order: a later pair
      overwrites an earlier one with the same key. */
  function FromPairs<K, V>(ps: seq<(K, V)>): (m: map<K, V>)
    ensures m.Keys == set i | 0 <= i < |ps| :: ps[i].0
    decreases |ps|
  {
    if |ps| == 0 then map[]
    else
      var init := ps[..|ps| - 1];
      var m0 := FromPairs(init);
      assert forall i :: 0 <= i < |init| ==> init[i] == ps[i];
      m0[ps[|ps| - 1].0 := ps[|ps| - 1].1]
  }

  /** The value stored under a key is the one from its last pair. */
  lemma {:induction false} FromPairsLastWins<K, V>(ps: seq<(K, V)>, i: nat)
    requires i < |ps|
    requires forall j :: i < j < |ps| ==> ps[j].0 != ps[i].0
    ensures ps[i].0 in FromPairs(ps) && FromPairs(ps)[ps[i].0] == ps[i].1
    decreases |ps|
  {
    if i < |ps| - 1 {
      var init := ps[..|ps| - 1];
      assert init[i] == ps[i];
      FromPairsLastWins(init, i);
    }
  }

  // ---------------------------------------------------------------------------
  // Python slicing
  // ---------------------------------------------------------------------------

  /** A slice bound as Python resolves it: negative counts from the end,
      then clamped into [0, n]. */
  function SliceIndex(i: int, n: nat): (k: nat)
    ensures k <= n
    ensures 0 <= i <= n ==> k == i
    ensures i > n ==> k == n
  {
    if i < 0 then Max(0, n + i) else Min(i, n)
  }

  /** Python's `s[lo:hi]`. */
  function Slice<T>(s: seq<T>, lo: int, hi: int): (r: seq<T>)
    ensures |r| <= |s|
  {
    var a := SliceIndex(lo, |s|);
    var b := SliceIndex(hi, |s|);
    if a <= b then s[a..b] else []
  }

  /** Python's `s[:k]`. */
  function Take<T>(s: seq<T>, k: int): (r: seq<T>)
    ensures 0 <= k ==> |r| == Min(k, |s|)
    ensures |r| <= |s| && r == s[..|r|]
  {
    Slice(s, 0, k)
  }

  /** Python's `s[k:]`. */
  function Drop<T>(s: seq<T>, k: int): (r: seq<T>)
    ensures 0 <= k ==> |r| == |s| - Min(k, |s|)
    ensures |r| <= |s| && r == s[|s| - |r|..]
  {
    Slice(s, k, |s|)
  }
}
