/** Hard-mode (classic Mastermind) scoring, shared by both front ends: the number
    of exact matches, and the number of colours right but misplaced, counted as the
    colour-by-colour minimum of the mismatched guess slots and the mismatched
    password slots. */
module Scoring {
  import opened Codes

  /** Aggregate feedback: the three counts of the hard mode. */
  datatype HardScore = HardScore(correct: int, wrongPosition: int, wrong: int)

  /** `m.get(c) || 0` and `m.getOrDefault(c, 0)` on a colour-count map. */
  function CountOf(m: map<int, nat>, c: int): nat {
    if c in m then m[c] else 0
  }

  /** `m.set(c, (m.get(c) || 0) + 1)`: one more occurrence of colour c. */
  function Counted(m: map<int, nat>, c: int): map<int, nat> {
    m[c := CountOf(m, c) + 1]
  }

  /** The colour-count map obtained by counting the colours of s one by one. */
  function TallyOf(s: seq<int>): map<int, nat> {
    if s == [] then map[] else Counted(TallyOf(s[..|s| - 1]), s[|s| - 1])
  }

  /** Counting one more colour extends the tally of the colours before it. */
  lemma TallySnoc(s: seq<int>, x: int)
    ensures TallyOf(s + [x]) == Counted(TallyOf(s), x)
  {
    assert (s + [x])[..|s|] == s;
  }

  /** The tally holds each colour's number of occurrences, and its keys are
      exactly the colours that occur. */
  lemma {:induction false} TallyCounts(s: seq<int>)
    ensures forall c :: CountOf(TallyOf(s), c) == multiset(s)[c]
    ensures forall c :: c in TallyOf(s) <==> c in s
  {
    if s != [] {
      var t, x := s[..|s| - 1], s[|s| - 1];
      TallyCounts(t);
      assert s == t + [x];
      assert multiset(s) == multiset(t) + multiset{x};
    }
  }

  function Min(a: int, b: int): int {
    if a <= b then a else b
  }

  /** Number of positions where guess and password agree. */
  function Exact(g: seq<int>, p: seq<int>): (n: nat)
    requires |g| == |p|
    ensures n <= |g|
  {
    if g == [] then 0
    else Exact(g[..|g| - 1], p[..|p| - 1]) + (if g[|g| - 1] == p[|p| - 1] then 1 else 0)
  }

  /** The guess colours at the positions where guess and password disagree. */
  function MismatchedGuess(g: seq<int>, p: seq<int>): seq<int>
    requires |g| == |p|
  {
    if g == [] then []
    else MismatchedGuess(g[..|g| - 1], p[..|p| - 1]) +
         (if g[|g| - 1] != p[|p| - 1] then [g[|g| - 1]] else [])
  }

  /** The password colours at the positions where guess and password disagree. */
  function MismatchedSecret(g: seq<int>, p: seq<int>): seq<int>
    requires |g| == |p|
  {
    if g == [] then []
    else MismatchedSecret(g[..|g| - 1], p[..|p| - 1]) +
         (if g[|g| - 1] != p[|p| - 1] then [p[|p| - 1]] else [])
  }

  /** Colours right but misplaced: for each colour, the smaller of its count among
      the mismatched guess slots and among the mismatched password slots, summed. */
  function WrongPositionCount(g: seq<int>, p: seq<int>): nat
    requires |g| == |p|
  {
    |multiset(MismatchedGuess(g, p)) * multiset(MismatchedSecret(g, p))|
  }

  /** The hard-mode feedback of guess g against password p. */
  function HardFeedback(g: seq<int>, p: seq<int>): HardScore
    requires |g| == CodeLength && |p| == CodeLength
  {
    var correct := Exact(g, p);
    var wrongPosition := WrongPositionCount(g, p);
    HardScore(correct, wrongPosition, CodeLength - correct - wrongPosition)
  }

  /** The mismatched slots are exactly the positions that are not exact matches. */
  lemma {:induction false} MismatchCount(g: seq<int>, p: seq<int>)
    requires |g| == |p|
    ensures |MismatchedGuess(g, p)| == |g| - Exact(g, p)
    ensures |MismatchedSecret(g, p)| == |g| - Exact(g, p)
  {
    if g != [] {
      MismatchCount(g[..|g| - 1], p[..|p| - 1]);
    }
  }

  /** A multiset intersection is no larger than either operand. */
  lemma IntersectionBound(a: multiset<int>, b: multiset<int>)
    ensures |a * b| <= |a| && |a * b| <= |b|
  {
    assert a == (a * b) + (a - b);
    assert b == (a * b) + (b - a);
  }

  /** All three counts are non-negative and together they cover the four slots;
      in particular correct + wrongPosition <= 4. */
  lemma HardFeedbackBounds(g: seq<int>, p: seq<int>)
    requires |g| == CodeLength && |p| == CodeLength
    ensures var r := HardFeedback(g, p);
      0 <= r.correct <= CodeLength && 0 <= r.wrongPosition && 0 <= r.wrong &&
      r.correct + r.wrongPosition + r.wrong == CodeLength
  {
    MismatchCount(g, p);
    IntersectionBound(multiset(MismatchedGuess(g, p)), multiset(MismatchedSecret(g, p)));
  }

  /** Every position matches exactly when the guess is the password. */
  lemma {:induction false} ExactAll(g: seq<int>, p: seq<int>)
    requires |g| == |p|
    ensures Exact(g, p) == |g| <==> g == p
  {
    if g != [] {
      var g', p' := g[..|g| - 1], p[..|p| - 1];
      ExactAll(g', p');
      assert g == g' + [g[|g| - 1]] && p == p' + [p[|p| - 1]];
      if g == p {
        assert g' == p';
      }
    }
  }

  /** Four exact matches iff the guess is the password; the password itself
      scores {4, 0, 0}. */
  lemma HardFeedbackPerfect(g: seq<int>, p: seq<int>)
    requires |g| == CodeLength && |p| == CodeLength
    ensures HardFeedback(g, p).correct == CodeLength <==> g == p
    ensures g == p ==> HardFeedback(g, p) == HardScore(4, 0, 0)
  {
    ExactAll(g, p);
    MismatchCount(g, p);
  }

  /** Scoring does not depend on which side is the guess. */
  lemma {:induction false} HardFeedbackSymmetric(g: seq<int>, p: seq<int>)
    requires |g| == CodeLength && |p| == CodeLength
    ensures HardFeedback(g, p) == HardFeedback(p, g)
  {
    ExactSymmetric(g, p);
    MismatchedSwap(g, p);
    MismatchedSwap(p, g);
    var a, b := multiset(MismatchedGuess(g, p)), multiset(MismatchedSecret(g, p));
    assert a * b == b * a;
  }

  lemma {:induction false} ExactSymmetric(g: seq<int>, p: seq<int>)
    requires |g| == |p|
    ensures Exact(g, p) == Exact(p, g)
  {
    if g != [] {
      ExactSymmetric(g[..|g| - 1], p[..|p| - 1]);
    }
  }

  lemma {:induction false} MismatchedSwap(g: seq<int>, p: seq<int>)
    requires |g| == |p|
    ensures MismatchedGuess(g, p) == MismatchedSecret(p, g)
  {
    if g != [] {
      MismatchedSwap(g[..|g| - 1], p[..|p| - 1]);
    }
  }

  /** Scoring one more slot extends the counts of the slots before it. */
  lemma ScoreSnoc(g: seq<int>, p: seq<int>, x: int, y: int)
    requires |g| == |p|
    ensures Exact(g + [x], p + [y]) == Exact(g, p) + (if x == y then 1 else 0)
    ensures MismatchedGuess(g + [x], p + [y]) == MismatchedGuess(g, p) + (if x != y then [x] else [])
    ensures MismatchedSecret(g + [x], p + [y]) == MismatchedSecret(g, p) + (if x != y then [y] else [])
  {
    assert (g + [x])[..|g|] == g && (p + [y])[..|p|] == p;
  }

  /** Scoring the prefix of length i + 1 extends the counts of the prefix of
      length i by slot i. */
  lemma PrefixStep(g: seq<int>, p: seq<int>, i: nat)
    requires i < |g| == |p|
    ensures Exact(g[..i + 1], p[..i + 1]) == Exact(g[..i], p[..i]) + (if g[i] == p[i] then 1 else 0)
    ensures MismatchedGuess(g[..i + 1], p[..i + 1]) ==
      MismatchedGuess(g[..i], p[..i]) + (if g[i] != p[i] then [g[i]] else [])
    ensures MismatchedSecret(g[..i + 1], p[..i + 1]) ==
      MismatchedSecret(g[..i], p[..i]) + (if g[i] != p[i] then [p[i]] else [])
  {
    ScoreSnoc(g[..i], p[..i], g[i], p[i]);
    assert g[..i + 1] == g[..i] + [g[i]] && p[..i + 1] == p[..i] + [p[i]];
  }

  /** Password [0,1,2,3] against guess [1,0,2,3]: two exact, two swapped. */
  lemma HardFeedbackExample()
    ensures HardFeedback([1, 0, 2, 3], [0, 1, 2, 3]) == HardScore(2, 2, 0)
  {
    var g, p := [1, 0, 2, 3], [0, 1, 2, 3];
    ExampleSlots(g, p);
    var a, b := multiset([1, 0]), multiset([0, 1]);
    assert a * b == b;
  }

  lemma ExampleSlots(g: seq<int>, p: seq<int>)
    requires g == [1, 0, 2, 3] && p == [0, 1, 2, 3]
    ensures Exact(g, p) == 2
    ensures MismatchedGuess(g, p) == [1, 0] && MismatchedSecret(g, p) == [0, 1]
  {
    var g2, p2 := g[..2], p[..2];
    ExampleSwappedPair(g2, p2);
    var g3, p3 := g[..3], p[..3];
    ScoreSnoc(g2, p2, g[2], p[2]);
    assert g3 == g2 + [g[2]] && p3 == p2 + [p[2]];
    ScoreSnoc(g3, p3, g[3], p[3]);
    assert g == g3 + [g[3]] && p == p3 + [p[3]];
  }

  /** The first two slots of that example disagree. */
  lemma ExampleSwappedPair(g: seq<int>, p: seq<int>)
    requires g == [1, 0] && p == [0, 1]
    ensures Exact(g, p) == 0
    ensures MismatchedGuess(g, p) == [1, 0] && MismatchedSecret(g, p) == [0, 1]
  {
    var g1, p1 := g[..1], p[..1];
    ScoreSnoc([], [], g[0], p[0]);
    assert g1 == [] + [g[0]] && p1 == [] + [p[0]];
    ScoreSnoc(g1, p1, g[1], p[1]);
    assert g == g1 + [g[1]] && p == p1 + [p[1]];
  }

  /** Counting slot i extends the colour tallies and the insertion order of the
      guess colours of the mismatched slots before it; a matching slot changes
      nothing. */
  lemma TallyStep(g: seq<int>, p: seq<int>, i: nat)
    requires i < |g| == |p|
    ensures var mg, ms := MismatchedGuess(g[..i], p[..i]), MismatchedSecret(g[..i], p[..i]);
      var mg', ms' := MismatchedGuess(g[..i + 1], p[..i + 1]), MismatchedSecret(g[..i + 1], p[..i + 1]);
      if g[i] != p[i] then
        TallyOf(ms') == Counted(TallyOf(ms), p[i]) && TallyOf(mg') == Counted(TallyOf(mg), g[i]) &&
        Dedup(mg') == (if g[i] in Dedup(mg) then Dedup(mg) else Dedup(mg) + [g[i]])
      else mg' == mg && ms' == ms
  {
    PrefixStep(g, p, i);
    var mg, ms := MismatchedGuess(g[..i], p[..i]), MismatchedSecret(g[..i], p[..i]);
    if g[i] != p[i] {
      SnocFacts(mg, ms, g[i], p[i]);
    } else {
      assert mg + [] == mg && ms + [] == ms;
    }
  }

  lemma SnocFacts(mg: seq<int>, ms: seq<int>, x: int, y: int)
    ensures TallyOf(ms + [y]) == Counted(TallyOf(ms), y) && TallyOf(mg + [x]) == Counted(TallyOf(mg), x)
    ensures Dedup(mg + [x]) == if x in Dedup(mg) then Dedup(mg) else Dedup(mg) + [x]
  {
    TallySnoc(ms, y);
    TallySnoc(mg, x);
    DedupSnoc(mg, x);
  }

  /** A multiset holding m copies of c: the credit one colour contributes. */
  function Copies(c: int, m: nat): (r: multiset<int>)
    ensures |r| == m
    ensures forall x :: r[x] == if x == c then m else 0
  {
    if m == 0 then multiset{} else Copies(c, m - 1) + multiset{c}
  }
}
