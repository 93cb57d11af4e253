/** The game engine of the browser version (html/script.js, class
    PasswordPuzzleGame) without its rendering: the hidden password, the
    append-only log of guesses and hints, the attempt counter, the won/over flags
    and the four-slot guess buffer with its selected slot. Math.random is replaced
    by draw sequences passed in by the caller. */
module WebGame {
  import opened Codes
  import opened Scoring

  datatype Option<T> = None | Some(value: T)

  /** The mode chosen on the start screen. */
  datatype Mode = Easy | Hard

  /** Per-slot label of the easy mode: 'correct', 'wrong-position', 'wrong'. */
  datatype Label = Correct | WrongPosition | Wrong

  /** Feedback stored with a guess: per-slot labels (easy) or counts (hard). */
  datatype Feedback = Labels(labels: seq<Label>) | Counts(counts: HardScore)

  /** An entry of the guess log. */
  datatype GuessRecord = GuessRecord(colors: seq<int>, feedback: Feedback, isHint: bool)

  /** Why a submission was refused. */
  datatype Rejection = InactiveGame | IncompleteGuess | DuplicateGuess

  /** What became of a submission; the browser shows a message for each refusal. */
  datatype Submission = Accepted | Rejected(reason: Rejection)

  const MaxAttempts: nat := 7
  const MaxHints: nat := 5

  /** Number of colours on offer: 5 in easy mode, 7 in hard mode. */
  function PoolSize(hardMode: bool): nat {
    if hardMode then 7 else 5
  }

  /** Easy-mode label of slot i of guess g against password p. */
  function SlotLabel(g: seq<int>, p: seq<int>, i: int): Label
    requires 0 <= i < |g| && |p| == |g|
  {
    if g[i] == p[i] then Correct else if g[i] in p then WrongPosition else Wrong
  }

  /** Easy-mode feedback: one label per slot. */
  function EasyFeedback(g: seq<int>, p: seq<int>): seq<Label>
    requires |g| == CodeLength && |p| == CodeLength
  {
    seq(CodeLength, i requires 0 <= i < CodeLength => SlotLabel(g, p, i))
  }

  /** The feedback a guess gets in the given mode (calculateFeedback). */
  function FeedbackFor(g: seq<int>, p: seq<int>, hardMode: bool): Feedback
    requires |g| == CodeLength && |p| == CodeLength
  {
    if hardMode then Counts(HardFeedback(g, p)) else Labels(EasyFeedback(g, p))
  }

  /** Easy-mode scoring loop: per slot, 'correct' on an exact match, else
      'wrong-position' when the password holds the colour anywhere, else 'wrong'. */
  method CalculateEasyModeFeedback(guess: seq<int>, password: seq<int>) returns (feedback: seq<Label>)
    requires |guess| == CodeLength && |password| == CodeLength
    ensures |feedback| == CodeLength
    ensures forall i :: 0 <= i < CodeLength ==>
      (feedback[i] == Correct <==> guess[i] == password[i]) &&
      (feedback[i] == Wrong <==> guess[i] !in password) &&
      (feedback[i] == WrongPosition <==> guess[i] != password[i] && guess[i] in password)
    ensures feedback == EasyFeedback(guess, password)
  {
    feedback := [];
    for i := 0 to CodeLength
      invariant |feedback| == i
      invariant forall k :: 0 <= k < i ==> feedback[k] == SlotLabel(guess, password, k)
    {
      if guess[i] == password[i] {
        feedback := feedback + [Correct];
      } else if guess[i] in password {
        feedback := feedback + [WrongPosition];
      } else {
        feedback := feedback + [Wrong];
      }
    }
  }

  /** Four 'correct' labels exactly when the guess is the password. */
  lemma EasyFeedbackPerfect(g: seq<int>, p: seq<int>)
    requires |g| == CodeLength && |p| == CodeLength
    ensures EasyFeedback(g, p) == [Correct, Correct, Correct, Correct] <==> g == p
  {
    if EasyFeedback(g, p) == [Correct, Correct, Correct, Correct] {
      forall i | 0 <= i < CodeLength ensures g[i] == p[i] {
        assert EasyFeedback(g, p)[i] == Correct;
      }
    }
  }

  /** A guess sharing no colour with the password gets four 'wrong' labels. */
  lemma EasyFeedbackDisjoint(g: seq<int>, p: seq<int>)
    requires |g| == CodeLength && |p| == CodeLength
    requires forall i :: 0 <= i < |g| ==> g[i] !in p
    ensures EasyFeedback(g, p) == [Wrong, Wrong, Wrong, Wrong]
  {
  }

  /** Hard-mode scoring: count exact matches, tally the colours of the mismatched
      slots in two Maps, then add up the per-colour minimums. */
  method CalculateHardModeFeedback(guess: seq<int>, password: seq<int>) returns (r: HardScore)
    requires |guess| == CodeLength && |password| == CodeLength
    ensures r == HardFeedback(guess, password)
    ensures 0 <= r.correct && 0 <= r.wrongPosition && 0 <= r.wrong
    ensures r.correct + r.wrongPosition + r.wrong == CodeLength
  {
    var correct := CountCorrect(guess, password);
    var passwordColors, guessColors, guessColorOrder := TallyMismatchedColors(guess, password);
    TallyCounts(MismatchedGuess(guess, password));
    TallyCounts(MismatchedSecret(guess, password));
    var wrongPosition := SumMinimumCounts(guessColorOrder, guessColors, passwordColors,
      multiset(MismatchedGuess(guess, password)), multiset(MismatchedSecret(guess, password)));
    var wrong := CodeLength - correct - wrongPosition;
    r := HardScore(correct, wrongPosition, wrong);
    HardFeedbackBounds(guess, password);
  }

  /** First loop of the hard scorer: the number of exact matches (the loop runs
      over the four slots; it is stated for any common length). */
  method CountCorrect(guess: seq<int>, password: seq<int>) returns (correct: nat)
    requires |guess| == |password|
    ensures correct == Exact(guess, password)
  {
    correct := 0;
    for i := 0 to |guess|
      invariant correct == Exact(guess[..i], password[..i])
    {
      PrefixStep(guess, password, i);
      if guess[i] == password[i] {
        correct := correct + 1;
      }
    }
    assert guess[..|guess|] == guess && password[..|guess|] == password;
  }

  /** Second loop of the hard scorer: per colour, how often it occurs among the
      mismatched password slots and among the mismatched guess slots. A JavaScript
      Map iterates its keys in insertion order, so the guess Map is returned with
      that order. */
  method TallyMismatchedColors(guess: seq<int>, password: seq<int>)
    returns (passwordColors: map<int, nat>, guessColors: map<int, nat>, guessColorOrder: seq<int>)
    requires |guess| == |password|
    ensures passwordColors == TallyOf(MismatchedSecret(guess, password))
    ensures guessColors == TallyOf(MismatchedGuess(guess, password))
    ensures guessColorOrder == Dedup(MismatchedGuess(guess, password))
  {
    passwordColors, guessColors, guessColorOrder := map[], map[], [];
    for i := 0 to |guess|
      invariant passwordColors == TallyOf(MismatchedSecret(guess[..i], password[..i]))
      invariant guessColors == TallyOf(MismatchedGuess(guess[..i], password[..i]))
      invariant guessColorOrder == Dedup(MismatchedGuess(guess[..i], password[..i]))
    {
      TallyStep(guess, password, i);
      if guess[i] != password[i] {
        passwordColors := Counted(passwordColors, password[i]);
        guessColors := Counted(guessColors, guess[i]);
        if guess[i] !in guessColorOrder {
          guessColorOrder := guessColorOrder + [guess[i]];
        }
      }
    }
    assert guess[..|guess|] == guess && password[..|guess|] == password;
  }

  /** Last loop of the hard scorer: walk the guess colours in Map order and add
      min(count in guess, count in password). The ghost multiset `credited` holds
      what has been added so far. The result is the size of the intersection of
      the two tallied multisets. */
  method SumMinimumCounts(guessColorOrder: seq<int>, guessColors: map<int, nat>, passwordColors: map<int, nat>,
                          ghost inGuess: multiset<int>, ghost inPassword: multiset<int>)
    returns (wrongPosition: nat)
    requires Distinct(guessColorOrder)
    requires forall c :: c in guessColors <==> c in guessColorOrder
    requires forall c :: CountOf(guessColors, c) == inGuess[c]
    requires forall c :: CountOf(passwordColors, c) == inPassword[c]
    ensures wrongPosition == |inGuess * inPassword|
  {
    wrongPosition := 0;
    ghost var credited: multiset<int> := multiset{};
    for k := 0 to |guessColorOrder|
      invariant forall c :: credited[c] == if c in guessColorOrder[..k] then Min(inGuess[c], inPassword[c]) else 0
      invariant wrongPosition == |credited|
    {
      var color := guessColorOrder[k];
      var count := guessColors[color];
      var passwordCount := CountOf(passwordColors, color);
      wrongPosition := wrongPosition + Min(count, passwordCount);
      credited := credited + Copies(color, Min(count, passwordCount));
      assert guessColorOrder[..k + 1] == guessColorOrder[..k] + [color];
    }
    assert guessColorOrder[..|guessColorOrder|] == guessColorOrder;
    forall c ensures credited[c] == (inGuess * inPassword)[c] {
      if c !in guessColorOrder {
        assert CountOf(guessColors, c) == 0;
      }
    }
    assert credited == inGuess * inPassword;
  }

  /** arraysEqual: equal lengths and equal entries. */
  method ArraysEqual(a: seq<int>, b: seq<int>) returns (equal: bool)
    ensures equal <==> a == b
  {
    if |a| != |b| {
      return false;
    }
    for i := 0 to |a|
      invariant a[..i] == b[..i]
    {
      if a[i] != b[i] {
        return false;
      }
      assert a[..i + 1] == a[..i] + [a[i]] && b[..i + 1] == b[..i] + [b[i]];
    }
    assert a == a[..|a|] && b == b[..|b|];
    return true;
  }

  /** generatePassword: fill a Set from the colour draws until it holds four
      colours, copy it to an array and shuffle that in place. */
  method GeneratePassword(colorPoolSize: nat, draws: seq<int>, swaps: seq<int>) returns (password: seq<int>)
    requires |Dedup(draws)| >= CodeLength && InRange(draws, colorPoolSize)
    requires ValidSwapDraws(CodeLength, swaps)
    ensures IsSecret(password, colorPoolSize)
    ensures multiset(password) == multiset(FirstDistinct(draws))
    ensures password == FisherYates(FirstDistinct(draws), swaps)
  {
    var colors: seq<int> := [];
    var k := 0;
    while |colors| < CodeLength
      invariant k <= |draws| && colors == Dedup(draws[..k]) && |colors| <= CodeLength
      decreases |draws| - k
    {
      assert k < |draws| by {
        assert draws[..|draws|] == draws;
      }
      var color := draws[k];
      assert draws[..k + 1] == draws[..k] + [color];
      if color !in colors {
        colors := colors + [color];
      }
      k := k + 1;
    }
    DedupPrefix(draws, k);
    assert colors == FirstDistinct(draws);
    forall i | 0 <= i < |colors| ensures 0 <= colors[i] < colorPoolSize {
      assert colors[i] in draws;
    }

    var colorArray := new int[CodeLength](i requires 0 <= i < CodeLength => colors[i]);
    assert colorArray[..] == colors;
    Shuffle(colorArray, swaps);
    password := colorArray[..];
    FisherYatesKeepsSecret(colors, swaps, colorPoolSize);
  }

  /** The do-while of generateDefaultHints: take draws from position k on until
      one differs from the password. Every skipped draw equals the password, so the
      draws from `next` on hold exactly one miss fewer. */
  method DrawHint(password: seq<int>, hintDraws: seq<seq<int>>, k: nat) returns (hint: seq<int>, next: nat)
    requires k <= |hintDraws| && Misses(hintDraws[k..], password) >= 1
    ensures k < next <= |hintDraws| && hint == hintDraws[next - 1] && hint != password
    ensures forall j :: k <= j < next - 1 ==> hintDraws[j] == password
    ensures Misses(hintDraws[next..], password) == Misses(hintDraws[k..], password) - 1
    ensures Without(hintDraws[..next], password) == Without(hintDraws[..k], password) + [hint]
  {
    if k == |hintDraws| {
      assert false;
    }
    hint, next := hintDraws[k], k + 1;
    var same := ArraysEqual(hint, password);
    while same
      invariant k < next <= |hintDraws| && hint == hintDraws[next - 1]
      invariant same <==> hint == password
      invariant forall j :: k <= j < next - 1 ==> hintDraws[j] == password
      invariant Misses(hintDraws[next - 1..], password) == Misses(hintDraws[k..], password)
      decreases |hintDraws| - next
    {
      MissesFrom(hintDraws, next - 1, password);
      if next == |hintDraws| {
        assert false;
      }
      hint, next := hintDraws[next], next + 1;
      same := ArraysEqual(hint, password);
    }
    MissesFrom(hintDraws, next - 1, password);
    WithoutDrawn(hintDraws, k, next, password);
  }

  /** Hints come before every player guess in the log. */
  predicate HintsFirst(log: seq<GuessRecord>) {
    forall i, j :: 0 <= i < j < |log| && log[j].isHint ==> log[i].isHint
  }

  /** Some earlier player guess (not a hint) equals g. */
  predicate PlayedBefore(log: seq<GuessRecord>, g: seq<int>) {
    exists i :: 0 <= i < |log| && !log[i].isHint && log[i].colors == g
  }

  /** No player guess repeats an earlier one. */
  predicate NoRepeatedGuess(log: seq<GuessRecord>) {
    forall i, j :: 0 <= i < j < |log| && !log[i].isHint && !log[j].isHint ==> log[i].colors != log[j].colors
  }

  /** A log entry is a code of the pool with the feedback it gets against the
      password in the given mode. */
  predicate Scored(r: GuessRecord, password: seq<int>, hardMode: bool, pool: int)
    requires |password| == CodeLength
  {
    |r.colors| == CodeLength && InRange(r.colors, pool) &&
    r.feedback == FeedbackFor(r.colors, password, hardMode)
  }

  /** The log of a started game: every entry is scored; hints come first; no player
      guess repeats an earlier one; only the last entry can be the password, and
      then it is a player guess; the game is won exactly when the last entry is the
      password. */
  ghost predicate LogValid(log: seq<GuessRecord>, password: seq<int>, hardMode: bool, pool: int, won: bool)
    requires |password| == CodeLength
  {
    (forall i :: 0 <= i < |log| ==> Scored(log[i], password, hardMode, pool)) &&
    (forall i :: 0 <= i < |log| && log[i].colors == password ==> !log[i].isHint && i == |log| - 1) &&
    (won <==> |log| > 0 && log[|log| - 1].colors == password) &&
    HintsFirst(log) && NoRepeatedGuess(log)
  }

  /** A hint as generateDefaultHints logs it: scored, and not the password. */
  predicate IsHintFor(r: GuessRecord, password: seq<int>, hardMode: bool, pool: int)
    requires |password| == CodeLength
  {
    r.isHint && r.colors != password && Scored(r, password, hardMode, pool)
  }

  /** Every entry of the log is such a hint. */
  predicate AllHintsFor(log: seq<GuessRecord>, password: seq<int>, hardMode: bool, pool: int)
    requires |password| == CodeLength
  {
    forall i :: 0 <= i < |log| ==> IsHintFor(log[i], password, hardMode, pool)
  }

  /** Logging one more such hint keeps every entry a hint for the password. */
  lemma AllHintsSnoc(log: seq<GuessRecord>, r: GuessRecord, password: seq<int>, hardMode: bool, pool: int)
    requires |password| == CodeLength && AllHintsFor(log, password, hardMode, pool)
    requires IsHintFor(r, password, hardMode, pool)
    ensures AllHintsFor(log + [r], password, hardMode, pool)
  {
  }

  /** The entries of the log from position `from` on carry the codes, in order. */
  predicate LogsCodes(log: seq<GuessRecord>, from: nat, codes: seq<seq<int>>) {
    from + |codes| == |log| && forall i :: 0 <= i < |codes| ==> log[from + i].colors == codes[i]
  }

  /** Logging one more entry logs its code after the others. */
  lemma LogsCodesSnoc(log: seq<GuessRecord>, from: nat, codes: seq<seq<int>>, r: GuessRecord)
    requires LogsCodes(log, from, codes)
    ensures LogsCodes(log + [r], from, codes + [r.colors])
  {
  }

  /** A log made only of hints is valid exactly when every entry is a scored hint
      that is not the password, and such a log is never won. */
  lemma {:induction false} HintLogValid(log: seq<GuessRecord>, password: seq<int>, hardMode: bool, pool: int, won: bool)
    requires |password| == CodeLength && forall i :: 0 <= i < |log| ==> log[i].isHint
    ensures LogValid(log, password, hardMode, pool, won) <==>
      !won && AllHintsFor(log, password, hardMode, pool)
  {
  }

  /** Logging a scored player guess that was not played before keeps the log valid,
      and the game is then won exactly when the guess is the password. */
  lemma LogAppend(log: seq<GuessRecord>, r: GuessRecord, password: seq<int>, hardMode: bool, pool: int)
    requires |password| == CodeLength && LogValid(log, password, hardMode, pool, false)
    requires Scored(r, password, hardMode, pool) && !r.isHint && !PlayedBefore(log, r.colors)
    ensures LogValid(log + [r], password, hardMode, pool, r.colors == password)
  {
    var log' := log + [r];
    forall i, j | 0 <= i < j < |log'| && !log'[i].isHint && !log'[j].isHint
      ensures log'[i].colors != log'[j].colors
    {
      if j == |log| {
        assert !(0 <= i < |log| && !log[i].isHint && log[i].colors == r.colors);
      }
    }
  }

  /** Every slot of the buffer holds a colour. */
  predicate IsComplete(buffer: seq<Option<int>>) {
    forall i :: 0 <= i < |buffer| ==> buffer[i].Some?
  }

  /** Some slot of the buffer holds a colour. */
  predicate HasColors(buffer: seq<Option<int>>) {
    exists i :: 0 <= i < |buffer| && buffer[i].Some?
  }

  /** Every colour in the buffer belongs to the pool. */
  predicate BufferInRange(buffer: seq<Option<int>>, pool: int) {
    forall i :: 0 <= i < |buffer| && buffer[i].Some? ==> 0 <= buffer[i].value < pool
  }

  /** The colours of a complete buffer. */
  function Colors(buffer: seq<Option<int>>): (g: seq<int>)
    requires IsComplete(buffer)
    ensures |g| == |buffer| && forall i :: 0 <= i < |g| ==> buffer[i] == Some(g[i])
  {
    seq(|buffer|, i requires 0 <= i < |buffer| => buffer[i].value)
  }

  /** The duplicate check of submitGuess: some player guess of the log (hints do
      not count) equals the code. */
  method IsDuplicate(log: seq<GuessRecord>, guess: seq<int>) returns (isDuplicate: bool)
    ensures isDuplicate <==> PlayedBefore(log, guess)
  {
    for i := 0 to |log|
      invariant !PlayedBefore(log[..i], guess)
    {
      if !log[i].isHint {
        var same := ArraysEqual(log[i].colors, guess);
        if same {
          assert log[i].colors == guess;
          return true;
        }
      }
      assert log[..i + 1] == log[..i] + [log[i]];
    }
    assert log[..|log|] == log;
    return false;
  }

  /** The engine state apart from the buffer: the pool matches the mode, the
      attempt count is the log length, the game is over exactly when it is won or
      the attempts are used up, and once the password is drawn it is a password of
      the pool and the log is valid; before that nothing is logged or won. */
  ghost predicate EngineValid(password: seq<int>, guesses: seq<GuessRecord>, hardMode: bool, pool: nat,
    maxAttempts: nat, attempts: nat, won: bool, over: bool)
  {
    pool == PoolSize(hardMode) && maxAttempts == MaxAttempts && attempts == |guesses| &&
    (over <==> won || attempts >= maxAttempts) &&
    if |password| == CodeLength then IsSecret(password, pool) && LogValid(guesses, password, hardMode, pool, won)
    else guesses == [] && !won
  }

  /** Accepting a scored player guess that was not played before, in a game that is
      not over, keeps the engine state valid: one more record and attempt, won
      exactly when the guess is the password, over when won or out of attempts. */
  lemma AcceptKeepsValid(password: seq<int>, guesses: seq<GuessRecord>, hardMode: bool, pool: nat,
    maxAttempts: nat, r: GuessRecord)
    requires |password| == CodeLength
    requires EngineValid(password, guesses, hardMode, pool, maxAttempts, |guesses|, false, false)
    requires Scored(r, password, hardMode, pool) && !r.isHint && !PlayedBefore(guesses, r.colors)
    ensures var won := r.colors == password;
      EngineValid(password, guesses + [r], hardMode, pool, maxAttempts, |guesses| + 1,
        won, won || |guesses| + 1 >= maxAttempts)
  {
    LogAppend(guesses, r, password, hardMode, pool);
  }

  /** A log of scored hints that are not the password, shorter than the attempt
      limit, is a valid state of a started game that is neither won nor over. */
  lemma HintsKeepValid(password: seq<int>, log: seq<GuessRecord>, hardMode: bool, pool: nat, maxAttempts: nat)
    requires IsSecret(password, pool) && pool == PoolSize(hardMode) && maxAttempts == MaxAttempts
    requires |log| < maxAttempts && AllHintsFor(log, password, hardMode, pool)
    ensures EngineValid(password, log, hardMode, pool, maxAttempts, |log|, false, false)
  {
    HintLogValid(log, password, hardMode, pool, false);
  }

  class PasswordPuzzleGame {
    var password: seq<int>
    var guesses: seq<GuessRecord>
    var isHardMode: bool
    var colorPoolSize: nat
    var maxAttempts: nat
    var currentAttempts: nat
    var gameWon: bool
    var gameOver: bool
    var currentGuess: array<Option<int>>
    var selectedSlot: nat

    /** The password has been drawn (startGame has run). */
    predicate Started()
      reads this
    {
      |password| == CodeLength
    }

    /** The state invariant of the engine: the pool matches the mode, the attempt
        count is the log length, the game is over exactly when it is won or the
        attempts are used up, and once started the password and the log are valid. */
    ghost predicate Valid()
      reads this, currentGuess
    {
      currentGuess.Length == CodeLength && selectedSlot < CodeLength &&
      BufferInRange(currentGuess[..], colorPoolSize) &&
      EngineValid(password, guesses, isHardMode, colorPoolSize, maxAttempts, currentAttempts, gameWon, gameOver)
    }

    /** The constructor: an easy-mode game that has not been started. */
    constructor ()
      ensures Valid() && !Started() && fresh(currentGuess)
      ensures password == [] && !isHardMode && colorPoolSize == 5 && maxAttempts == MaxAttempts
      ensures guesses == [] && currentAttempts == 0 && !gameWon && !gameOver
      ensures currentGuess[..] == [None, None, None, None] && selectedSlot == 0
    {
      password := [];
      guesses := [];
      isHardMode := false;
      colorPoolSize := 5;
      maxAttempts := 7;
      currentAttempts := 0;
      gameWon := false;
      gameOver := false;
      currentGuess := new Option<int>[CodeLength](_ => None);
      selectedSlot := 0;
    }

    /** calculateFeedback: dispatch on the mode. */
    method CalculateFeedback(guess: seq<int>) returns (feedback: Feedback)
      requires |guess| == CodeLength && Started()
      ensures feedback == FeedbackFor(guess, password, isHardMode)
    {
      if isHardMode {
        var counts := CalculateHardModeFeedback(guess, password);
        feedback := Counts(counts);
      } else {
        var labels := CalculateEasyModeFeedback(guess, password);
        feedback := Labels(labels);
      }
    }

    /** generateDefaultHints: hintCount times, draw codes until one differs from the
        password, log it as a scored hint and count it as an attempt. It keeps a
        started game whose log holds only hints valid, provided the attempts stay
        below the limit (startGame calls it on an empty log with at most five). */
    method GenerateDefaultHints(hintCount: nat, hintDraws: seq<seq<int>>)
      requires Valid() && Started() && HintDraws(hintDraws, colorPoolSize) && Misses(hintDraws, password) >= hintCount
      requires (forall i :: 0 <= i < |guesses| ==> guesses[i].isHint) && currentAttempts + hintCount < maxAttempts
      modifies this`guesses, this`currentAttempts
      ensures Valid() && !gameOver
      ensures |guesses| == |old(guesses)| + hintCount && guesses[..|old(guesses)|] == old(guesses)
      ensures LogsCodes(guesses, |old(guesses)|, Without(hintDraws, password)[..hintCount])
      ensures AllHintsFor(guesses, password, isHardMode, colorPoolSize)
      ensures currentAttempts == old(currentAttempts) + hintCount
    {
      HintLogValid(guesses, password, isHardMode, colorPoolSize, gameWon);
      LogHints(hintCount, hintDraws);
      HintsKeepValid(password, guesses, isHardMode, colorPoolSize, maxAttempts);
    }

    /** The loop of generateDefaultHints, on a log of hints for the password. */
    method LogHints(hintCount: nat, hintDraws: seq<seq<int>>)
      requires Started() && HintDraws(hintDraws, colorPoolSize) && Misses(hintDraws, password) >= hintCount
      requires AllHintsFor(guesses, password, isHardMode, colorPoolSize)
      modifies this`guesses, this`currentAttempts
      ensures |guesses| == |old(guesses)| + hintCount && guesses[..|old(guesses)|] == old(guesses)
      ensures LogsCodes(guesses, |old(guesses)|, Without(hintDraws, password)[..hintCount])
      ensures AllHintsFor(guesses, password, isHardMode, colorPoolSize)
      ensures currentAttempts == old(currentAttempts) + hintCount
    {
      var k := 0;
      assert hintDraws[k..] == hintDraws;
      for n := 0 to hintCount
        invariant k <= |hintDraws| && Misses(hintDraws[k..], password) >= hintCount - n
        invariant |guesses| == |old(guesses)| + n && guesses[..|old(guesses)|] == old(guesses)
        invariant LogsCodes(guesses, |old(guesses)|, Without(hintDraws[..k], password))
        invariant AllHintsFor(guesses, password, isHardMode, colorPoolSize)
        invariant currentAttempts == old(currentAttempts) + n
      {
        var hint;
        ghost var drawn := Without(hintDraws[..k], password);
        hint, k := DrawHint(password, hintDraws, k);
        assert hint in hintDraws;
        ghost var before := guesses;
        LogHint(hint);
        AllHintsSnoc(before, guesses[|before|], password, isHardMode, colorPoolSize);
        LogsCodesSnoc(before, |old(guesses)|, drawn, guesses[|before|]);
      }
      ghost var drawn := Without(hintDraws[..k], password);
      assert |drawn| == hintCount;
      WithoutPrefix(hintDraws, k, password);
      assert Without(hintDraws, password)[..hintCount] == drawn;
    }

    /** One step of generateDefaultHints: log a drawn code as a hint scored
        against the password, and count it as an attempt. */
    method LogHint(hint: seq<int>)
      requires Started() && |hint| == CodeLength
      modifies this`guesses, this`currentAttempts
      ensures guesses == old(guesses) + [GuessRecord(hint, FeedbackFor(hint, password, isHardMode), true)]
      ensures currentAttempts == old(currentAttempts) + 1
    {
      var feedback := CalculateFeedback(hint);
      guesses := guesses + [GuessRecord(hint, feedback, true)];
      currentAttempts := currentAttempts + 1;
    }

    /** startGame: reset the state for the chosen mode with a freshly drawn
        password, then log the hints. */
    method StartGame(mode: Mode, draws: seq<int>, swaps: seq<int>, hintCount: nat, hintDraws: seq<seq<int>>)
      requires |Dedup(draws)| >= CodeLength && InRange(draws, PoolSize(mode == Hard))
      requires ValidSwapDraws(CodeLength, swaps)
      requires 1 <= hintCount <= MaxHints && HintDraws(hintDraws, PoolSize(mode == Hard))
      requires Misses(hintDraws, FisherYates(FirstDistinct(draws), swaps)) >= hintCount
      modifies this
      ensures Valid() && Started() && isHardMode == (mode == Hard)
      ensures password == FisherYates(FirstDistinct(draws), swaps)
      ensures |guesses| == currentAttempts == hintCount && forall i :: 0 <= i < |guesses| ==> guesses[i].isHint
      ensures LogsCodes(guesses, 0, Without(hintDraws, password)[..hintCount])
      ensures !gameWon && !gameOver
      ensures fresh(currentGuess) && currentGuess[..] == [None, None, None, None] && selectedSlot == 0
    {
      var secret := GeneratePassword(PoolSize(mode == Hard), draws, swaps);
      Reset(mode == Hard, secret);
      GenerateDefaultHints(hintCount, hintDraws);
    }

    /** The resets of startGame (mode, pool, attempt limit, counters, flags, log,
        buffer and selection) and the assignment of the drawn password. */
    method Reset(hardMode: bool, secret: seq<int>)
      requires IsSecret(secret, PoolSize(hardMode))
      modifies this
      ensures Valid() && Started()
      ensures isHardMode == hardMode && password == secret
      ensures guesses == [] && currentAttempts == 0 && !gameWon && !gameOver
      ensures fresh(currentGuess) && currentGuess[..] == [None, None, None, None] && selectedSlot == 0
    {
      isHardMode := hardMode;
      colorPoolSize := PoolSize(hardMode);
      maxAttempts := 7;
      currentAttempts := 0;
      gameWon := false;
      gameOver := false;
      guesses := [];
      selectedSlot := 0;
      password := secret;
      currentGuess := new Option<int>[CodeLength](_ => None);
      assert currentGuess[..] == [None, None, None, None];
    }

    /** submitGuess: refuse when the game is over, when a slot is empty or when an
        earlier player guess is the same (a guess equal only to a hint is allowed);
        otherwise record the guess. */
    method SubmitGuess() returns (outcome: Submission)
      requires Valid() && Started()
      modifies this
      ensures Valid() && Started()
      ensures password == old(password) && isHardMode == old(isHardMode)
      ensures old(gameOver) ==> outcome == Rejected(InactiveGame)
      ensures !old(gameOver) && !old(IsComplete(currentGuess[..])) ==> outcome == Rejected(IncompleteGuess)
      ensures !old(gameOver) && old(IsComplete(currentGuess[..])) && old(PlayedBefore(guesses, Colors(currentGuess[..]))) ==>
        outcome == Rejected(DuplicateGuess)
      ensures !old(gameOver) && old(IsComplete(currentGuess[..])) && !old(PlayedBefore(guesses, Colors(currentGuess[..]))) ==>
        outcome == Accepted
      ensures outcome.Rejected? ==>
        guesses == old(guesses) && currentAttempts == old(currentAttempts) &&
        gameWon == old(gameWon) && gameOver == old(gameOver) &&
        currentGuess == old(currentGuess) && currentGuess[..] == old(currentGuess[..]) &&
        selectedSlot == old(selectedSlot)
      ensures outcome == Accepted ==>
        var g := old(Colors(currentGuess[..]));
        guesses == old(guesses) + [GuessRecord(g, FeedbackFor(g, password, isHardMode), false)] &&
        currentAttempts == old(currentAttempts) + 1 &&
        gameWon == (g == password) &&
        gameOver == (g == password || currentAttempts >= maxAttempts) &&
        fresh(currentGuess) && currentGuess[..] == [None, None, None, None] && selectedSlot == 0
    {
      if gameOver {
        return Rejected(InactiveGame);
      }
      if !IsComplete(currentGuess[..]) {
        return Rejected(IncompleteGuess);
      }
      var guess := Colors(currentGuess[..]);
      var isDuplicate := IsDuplicate(guesses, guess);
      if isDuplicate {
        return Rejected(DuplicateGuess);
      }
      RecordGuess(guess);
      assert currentGuess[..][0].Some?;
      var cleared := ClearCurrentGuess();
      outcome := Accepted;
    }

    /** The accepting half of submitGuess: log the scored guess as a player guess,
        count the attempt and decide win (checked before the attempt limit, so a win
        on the last attempt is a win) or loss. The buffer is left to the caller. */
    method RecordGuess(guess: seq<int>)
      requires Valid() && Started() && !gameOver
      requires IsComplete(currentGuess[..]) && guess == Colors(currentGuess[..])
      requires !PlayedBefore(guesses, guess)
      modifies this`guesses, this`currentAttempts, this`gameWon, this`gameOver
      ensures Valid()
      ensures guesses == old(guesses) + [GuessRecord(guess, FeedbackFor(guess, password, isHardMode), false)]
      ensures currentAttempts == old(currentAttempts) + 1
      ensures gameWon == (guess == password)
      ensures gameOver == (guess == password || currentAttempts >= maxAttempts)
    {
      var feedback := CalculateFeedback(guess);
      var record := GuessRecord(guess, feedback, false);
      AcceptKeepsValid(password, guesses, isHardMode, colorPoolSize, maxAttempts, record);
      guesses := guesses + [record];
      currentAttempts := currentAttempts + 1;

      var won := ArraysEqual(guess, password);
      if won {
        gameWon := true;
        gameOver := true;
      } else if currentAttempts >= maxAttempts {
        gameOver := true;
      }
    }

    /** clearCurrentGuess: when some slot holds a colour, empty the buffer and select
        slot 0; an empty buffer is left as it is, selected slot included. The game
        being over does not matter. The result says which case happened. */
    method ClearCurrentGuess() returns (cleared: bool)
      requires Valid()
      modifies this`currentGuess, this`selectedSlot
      ensures Valid()
      ensures cleared == old(HasColors(currentGuess[..]))
      ensures cleared ==> fresh(currentGuess) && currentGuess[..] == [None, None, None, None] && selectedSlot == 0
      ensures !cleared ==> currentGuess == old(currentGuess) && selectedSlot == old(selectedSlot)
      ensures !HasColors(currentGuess[..])
    {
      if !HasColors(currentGuess[..]) {
        return false;
      }
      currentGuess := new Option<int>[CodeLength](_ => None);
      selectedSlot := 0;
      assert currentGuess[..] == [None, None, None, None];
      return true;
    }

    /** selectColor: unless the game is over, put the colour in the selected slot,
        then select the lowest empty slot; with no empty slot the selection stays. */
    method SelectColor(colorIndex: int)
      requires Valid() && 0 <= colorIndex < colorPoolSize
      modifies currentGuess, this`selectedSlot
      ensures Valid()
      ensures old(gameOver) ==> currentGuess[..] == old(currentGuess[..]) && selectedSlot == old(selectedSlot)
      ensures !old(gameOver) ==> currentGuess[..] == old(currentGuess[..])[old(selectedSlot) := Some(colorIndex)]
      ensures !old(gameOver) && !IsComplete(currentGuess[..]) ==>
        currentGuess[selectedSlot] == None && forall i :: 0 <= i < selectedSlot ==> currentGuess[i].Some?
      ensures !old(gameOver) && IsComplete(currentGuess[..]) ==> selectedSlot == old(selectedSlot)
    {
      if gameOver {
        return;
      }
      currentGuess[selectedSlot] := Some(colorIndex);
      ghost var filled := currentGuess[..];
      for i := 0 to CodeLength
        invariant currentGuess[..] == filled
        invariant selectedSlot == old(selectedSlot)
        invariant forall k :: 0 <= k < i ==> currentGuess[k].Some?
      {
        if currentGuess[i] == None {
          selectedSlot := i;
          break;
        }
      }
    }

    /** selectSlot: unless the game is over, select the given slot. */
    method SelectSlot(slotIndex: nat)
      requires Valid() && slotIndex < CodeLength
      modifies this`selectedSlot
      ensures Valid()
      ensures selectedSlot == if old(gameOver) then old(selectedSlot) else slotIndex
    {
      if gameOver {
        return;
      }
      selectedSlot := slotIndex;
    }
  }

  /** Buffer [0, _, 2, _] with slot 1 selected: choosing a colour fills slot 1 and
      selects slot 3. */
  method SelectColorAdvanceExample() {
    var game := new PasswordPuzzleGame();
    game.SelectColor(0);
    assert game.currentGuess[..] == [Some(0), None, None, None];
    assert game.currentGuess[1] == None;
    assert game.selectedSlot == 1;
    game.SelectSlot(2);
    game.SelectColor(2);
    assert game.currentGuess[..] == [Some(0), None, Some(2), None];
    assert game.currentGuess[1] == None;
    assert game.selectedSlot == 1;
    game.SelectColor(4);
    assert game.currentGuess[..] == [Some(0), Some(4), Some(2), None];
    assert game.currentGuess[3] == None;
    assert game.selectedSlot == 3;
  }

  /** Clearing twice leaves the same state as clearing once. */
  method ClearTwiceExample(game: PasswordPuzzleGame)
    requires game.Valid()
    modifies game
  {
    var first := game.ClearCurrentGuess();
    var buffer, slot := game.currentGuess, game.selectedSlot;
    var second := game.ClearCurrentGuess();
    assert !second && game.currentGuess == buffer && game.selectedSlot == slot;
  }
}
