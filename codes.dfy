/** Colour codes shared by the browser game and the console game: a code is a
    sequence of colour indices, a password is four distinct ones. Also the
    insertion-ordered de-duplication that a JavaScript Set or Map performs and the
    descending Fisher–Yates swap pass used to shuffle a password. */
module Codes {

  /** Number of slots in a password, a guess and a hint. */
  const CodeLength: nat := 4

  /** No colour occurs twice. */
  predicate Distinct(s: seq<int>) {
    forall i, j :: 0 <= i < j < |s| ==> s[i] != s[j]
  }

  /** Every entry is a colour index of a pool of n colours. */
  predicate InRange(s: seq<int>, n: int) {
    forall i :: 0 <= i < |s| ==> 0 <= s[i] < n
  }

  /** A well-formed password: four pairwise-distinct colours of the pool. */
  predicate IsSecret(s: seq<int>, n: int) {
    |s| == CodeLength && Distinct(s) && InRange(s, n)
  }

  /** The values of s in order of first occurrence, each once: what a JavaScript
      Set (or the key order of a Map) holds after adding the values of s in turn. */
  function Dedup(s: seq<int>): (r: seq<int>)
    ensures Distinct(r)
    ensures forall x :: x in r <==> x in s
    ensures |r| <= |s|
  {
    if s == [] then []
    else
      var d := Dedup(s[..|s| - 1]);
      assert s == s[..|s| - 1] + [s[|s| - 1]];
      if s[|s| - 1] in d then d else d + [s[|s| - 1]]
  }

  /** A sequence without repetitions has as many distinct values as entries. */
  lemma {:induction false} DistinctCard(s: seq<int>)
    requires Distinct(s)
    ensures |set x | x in s| == |s|
  {
    if s != [] {
      var t := s[..|s| - 1];
      assert Distinct(t);
      DistinctCard(t);
      assert s == t + [s[|s| - 1]];
      assert s[|s| - 1] !in t;
      assert (set x | x in s) == (set x | x in t) + {s[|s| - 1]};
    }
  }

  /** Exchanging entries i and j. */
  function Swap(s: seq<int>, i: int, j: int): seq<int>
    requires 0 <= i < |s| && 0 <= j < |s|
  {
    seq(|s|, k requires 0 <= k < |s| => if k == i then s[j] else if k == j then s[i] else s[k])
  }

  /** Exchanging two entries keeps the multiset of values. */
  lemma SwapMultiset(s: seq<int>, i: int, j: int)
    requires 0 <= i < |s| && 0 <= j < |s|
    ensures |Swap(s, i, j)| == |s| && multiset(Swap(s, i, j)) == multiset(s)
  {
    assert Swap(s, i, j) == s[i := s[j]][j := s[i]];
  }

  /** Exchanging two entries keeps distinct values distinct. */
  lemma SwapDistinct(s: seq<int>, i: int, j: int)
    requires 0 <= i < |s| && 0 <= j < |s| && Distinct(s)
    ensures |Swap(s, i, j)| == |s| && Distinct(Swap(s, i, j))
  {
    var r := Swap(s, i, j);
    forall a, b | 0 <= a < b < |r| ensures r[a] != r[b] {
      var a' := if a == i then j else if a == j then i else a;
      var b' := if b == i then j else if b == j then i else b;
      assert r[a] == s[a'] && r[b] == s[b'];
    }
  }

  /** The random draws a descending Fisher–Yates pass over n slots consumes:
      the k-th draw is made at position n-1-k and lies in [0, n-1-k]. */
  predicate ValidSwapDraws(n: nat, js: seq<int>) {
    |js| == (if n == 0 then 0 else n - 1) &&
    forall k :: 0 <= k < |js| ==> 0 <= js[k] <= n - 1 - k
  }

  /** The sequence after the first k swaps of the pass. */
  function FisherYatesSteps(s: seq<int>, js: seq<int>, k: nat): (r: seq<int>)
    requires ValidSwapDraws(|s|, js) && k <= |js|
    ensures |r| == |s|
  {
    if k == 0 then s else Swap(FisherYatesSteps(s, js, k - 1), |s| - k, js[k - 1])
  }

  /** The sequence after the whole pass. */
  function FisherYates(s: seq<int>, js: seq<int>): seq<int>
    requires ValidSwapDraws(|s|, js)
  {
    FisherYatesSteps(s, js, |js|)
  }

  /** Every prefix of the pass only permutes: the multiset of values is unchanged. */
  lemma {:induction false} FisherYatesStepsPermute(s: seq<int>, js: seq<int>, k: nat)
    requires ValidSwapDraws(|s|, js) && k <= |js|
    ensures multiset(FisherYatesSteps(s, js, k)) == multiset(s)
  {
    if k > 0 {
      var prev := FisherYatesSteps(s, js, k - 1);
      assert 0 <= js[k - 1] <= |s| - k;
      assert FisherYatesSteps(s, js, k) == Swap(prev, |s| - k, js[k - 1]);
      FisherYatesStepsPermute(s, js, k - 1);
      SwapMultiset(prev, |s| - k, js[k - 1]);
    }
  }

  /** ... and distinct values stay distinct. */
  lemma {:induction false} FisherYatesStepsDistinct(s: seq<int>, js: seq<int>, k: nat)
    requires ValidSwapDraws(|s|, js) && k <= |js| && Distinct(s)
    ensures Distinct(FisherYatesSteps(s, js, k))
  {
    if k > 0 {
      var prev := FisherYatesSteps(s, js, k - 1);
      FisherYatesStepsDistinct(s, js, k - 1);
      SwapDistinct(prev, |s| - k, js[k - 1]);
    }
  }

  /** A permutation of a password is a password of the same pool. */
  lemma PermutedSecret(s: seq<int>, t: seq<int>, n: int)
    requires IsSecret(s, n) && |t| == |s| && multiset(t) == multiset(s) && Distinct(t)
    ensures IsSecret(t, n)
  {
    forall i | 0 <= i < |t| ensures 0 <= t[i] < n {
      assert t[i] in multiset(t);
      assert t[i] in s;
    }
  }

  /** The shuffled password keeps four distinct colours of the pool. */
  lemma FisherYatesKeepsSecret(s: seq<int>, js: seq<int>, n: int)
    requires IsSecret(s, n) && ValidSwapDraws(|s|, js)
    ensures IsSecret(FisherYates(s, js), n)
    ensures multiset(FisherYates(s, js)) == multiset(s)
  {
    FisherYatesStepsPermute(s, js, |js|);
    FisherYatesStepsDistinct(s, js, |js|);
    PermutedSecret(s, FisherYates(s, js), n);
  }

  /** The in-place shuffle loop `for (i = length - 1; i > 0; i--) swap(i, j)`,
      j drawn from [0, i]; js lists the draws in the order they are made. */
  method Shuffle(a: array<int>, js: seq<int>)
    requires ValidSwapDraws(a.Length, js)
    modifies a
    ensures a[..] == FisherYates(old(a[..]), js)
  {
    var i := a.Length - 1;
    while i > 0
      invariant if a.Length == 0 then i == -1 else 0 <= i < a.Length
      invariant a[..] == FisherYatesSteps(old(a[..]), js, a.Length - 1 - i)
    {
      var j := js[a.Length - 1 - i];
      a[i], a[j] := a[j], a[i];
      i := i - 1;
    }
  }

  /** The first four distinct values among the draws: the contents, in insertion
      order, of a Set filled from the draws until it holds four colours. */
  function FirstDistinct(draws: seq<int>): (r: seq<int>)
    requires |Dedup(draws)| >= CodeLength
    ensures |r| == CodeLength && Distinct(r)
    ensures forall x :: x in r ==> x in draws
  {
    Dedup(draws)[..CodeLength]
  }

  /** Adding a value to a Set appends it unless it is already there. */
  lemma DedupSnoc(s: seq<int>, x: int)
    ensures Dedup(s + [x]) == if x in Dedup(s) then Dedup(s) else Dedup(s) + [x]
  {
    assert (s + [x])[..|s|] == s;
  }

  /** De-duplicating a prefix gives a prefix of the de-duplicated whole. */
  lemma {:induction false} DedupPrefix(s: seq<int>, k: nat)
    requires k <= |s|
    ensures |Dedup(s[..k])| <= |Dedup(s)| && Dedup(s[..k]) == Dedup(s)[..|Dedup(s[..k])|]
  {
    if k < |s| {
      var t := s[..|s| - 1];
      assert s[..k] == t[..k];
      DedupPrefix(t, k);
      assert Dedup(s)[..|Dedup(t)|] == Dedup(t);
    } else {
      assert s[..k] == s;
    }
  }

  /** Number of draws that differ from q: how many of them a rejection loop that
      refuses q would accept. */
  function Misses(draws: seq<seq<int>>, q: seq<int>): (n: nat)
    ensures n <= |draws|
  {
    if draws == [] then 0 else (if draws[0] != q then 1 else 0) + Misses(draws[1..], q)
  }

  /** Misses of the draws from position i on: draw i, then the rest. */
  lemma MissesFrom(draws: seq<seq<int>>, i: nat, q: seq<int>)
    requires i < |draws|
    ensures Misses(draws[i..], q) == (if draws[i] != q then 1 else 0) + Misses(draws[i + 1..], q)
  {
    assert draws[i..][1..] == draws[i + 1..];
  }

  /** The draws that differ from q, in order: what a rejection loop that refuses q
      keeps. */
  function Without(draws: seq<seq<int>>, q: seq<int>): (r: seq<seq<int>>)
    ensures |r| == Misses(draws, q)
    ensures forall d :: d in r ==> d in draws && d != q
  {
    if draws == [] then [] else (if draws[0] != q then [draws[0]] else []) + Without(draws[1..], q)
  }

  /** Filtering a concatenation filters each part. */
  lemma {:induction false} WithoutAppend(a: seq<seq<int>>, b: seq<seq<int>>, q: seq<int>)
    ensures Without(a + b, q) == Without(a, q) + Without(b, q)
  {
    if a == [] {
      assert a + b == b;
    } else {
      assert (a + b)[1..] == a[1..] + b;
      WithoutAppend(a[1..], b, q);
    }
  }

  /** Filtering one more draw keeps it when it differs from q. */
  lemma WithoutSnoc(draws: seq<seq<int>>, k: nat, q: seq<int>)
    requires k < |draws|
    ensures Without(draws[..k + 1], q) == Without(draws[..k], q) + (if draws[k] != q then [draws[k]] else [])
  {
    assert draws[..k + 1] == draws[..k] + [draws[k]];
    WithoutAppend(draws[..k], [draws[k]], q);
    assert [draws[k]][1..] == [];
  }

  /** Draws equal to q add nothing to the filtered sequence. */
  lemma {:induction false} WithoutSkips(draws: seq<seq<int>>, k: nat, m: nat, q: seq<int>)
    requires k <= m <= |draws| && forall j :: k <= j < m ==> draws[j] == q
    ensures Without(draws[..m], q) == Without(draws[..k], q)
  {
    if m > k {
      WithoutSkips(draws, k, m - 1, q);
      WithoutSnoc(draws, m - 1, q);
    }
  }

  /** A rejection loop that skips draws k .. next - 2 (all equal to q) and stops at
      draw next - 1 adds exactly that draw to the filtered sequence. */
  lemma WithoutDrawn(draws: seq<seq<int>>, k: nat, next: nat, q: seq<int>)
    requires k < next <= |draws| && draws[next - 1] != q
    requires forall j :: k <= j < next - 1 ==> draws[j] == q
    ensures Without(draws[..next], q) == Without(draws[..k], q) + [draws[next - 1]]
  {
    WithoutSkips(draws, k, next - 1, q);
    WithoutSnoc(draws, next - 1, q);
  }

  /** Filtering a prefix of the draws gives a prefix of the filtered draws. */
  lemma WithoutPrefix(draws: seq<seq<int>>, k: nat, q: seq<int>)
    requires k <= |draws|
    ensures |Without(draws[..k], q)| <= |Without(draws, q)|
    ensures Without(draws, q)[..|Without(draws[..k], q)|] == Without(draws[..k], q)
  {
    assert draws == draws[..k] + draws[k..];
    WithoutAppend(draws[..k], draws[k..], q);
  }

  /** Each draw is a code of the pool. */
  ghost predicate HintDraws(draws: seq<seq<int>>, pool: int) {
    forall d :: d in draws ==> |d| == CodeLength && InRange(d, pool)
  }

  /** The draws can feed a rejection loop that must accept n codes whatever
      password it refuses, and each draw is a code of the pool: for a caller that
      does not know the password in advance. */
  ghost predicate HintSupply(draws: seq<seq<int>>, n: nat, pool: int) {
    HintDraws(draws, pool) && forall q :: Misses(draws, q) >= n
  }
}
