/** The console version of the game (src/main/java/com/puzzle/PasswordPuzzle.java)
    without its terminal output: password and hint generation, the two ways a
    logged guess is scored, the validation of an input line and the attempt loop.
    Math.random is replaced by draw sequences, the input lines by a sequence of
    already split lines, and the iteration order of a HashSet or HashMap, which
    Java leaves unspecified, by an arbitrary choice. */
module ConsoleGame {
  import opened Codes
  import opened Scoring

  /** Rows on the board: hints and player guesses together. */
  const TotalRows: nat := 7
  const MaxHints: nat := 5

  /** Number of colours on offer: 4 in easy mode, 7 in hard mode. */
  function PoolSize(hardMode: bool): nat {
    if hardMode then 7 else 4
  }

  /** One whitespace-separated piece of an input line, as Integer.parseInt reads it. */
  datatype Token = Int(value: int) | NotInt

  /** What the validation of an input line decided; each refusal prints its own
      message. */
  datatype InputCheck = Accepted | WrongCount | NotNumber | OutOfRange

  /** Easy-mode mark of one slot: ✓ or ✗. */
  datatype Mark = Tick | Cross

  /** How a game ends: cracked, out of attempts, or out of input lines (where
      Scanner.nextLine throws). */
  datatype Outcome = Won | Lost | OutOfInput

  /** The outcome of the attempt loop and the log it leaves. */
  datatype PlayResult = PlayResult(outcome: Outcome, log: seq<seq<int>>)

  /** Every piece of the line is an integer. */
  predicate AllInts(line: seq<Token>) {
    forall i :: 0 <= i < |line| ==> line[i].Int?
  }

  /** The integers of a line made only of integers. */
  function Values(line: seq<Token>): (g: seq<int>)
    requires AllInts(line)
    ensures |g| == |line| && forall i :: 0 <= i < |line| ==> g[i] == line[i].value
  {
    seq(|line|, i requires 0 <= i < |line| => line[i].value)
  }

  /** A line the game takes as a guess: four integers, each a colour of the pool. */
  predicate Acceptable(line: seq<Token>, pool: int) {
    |line| == CodeLength && AllInts(line) && InRange(Values(line), pool)
  }

  /** The four distinct colours of the pool that a HashSet filled from the draws
      holds once it has four: those of the first four distinct draws. The loop
      stops as soon as the set is full. */
  method DrawColors(draws: seq<int>) returns (colors: set<int>)
    requires |Dedup(draws)| >= CodeLength
    ensures |colors| == CodeLength
    ensures forall x :: x in colors <==> x in FirstDistinct(draws)
  {
    colors := {};
    var k := 0;
    while |colors| < CodeLength
      invariant k <= |draws| && colors == Members(Dedup(draws[..k]))
      invariant |colors| == |Dedup(draws[..k])| <= CodeLength
      decreases |draws| - k
    {
      MoreDraws(draws, k);
      var color := draws[k];
      HashSetStep(draws, k);
      colors := colors + {color};
      k := k + 1;
    }
    DrawnColors(draws, k);
  }

  /** While the set has fewer than four colours, some draw is left. */
  lemma MoreDraws(draws: seq<int>, k: nat)
    requires |Dedup(draws)| >= CodeLength && k <= |draws| && |Dedup(draws[..k])| < CodeLength
    ensures k < |draws|
  {
    assert draws[..|draws|] == draws;
  }

  /** Once the set of the first k draws has four colours, they are the first four
      distinct draws. */
  lemma DrawnColors(draws: seq<int>, k: nat)
    requires |Dedup(draws)| >= CodeLength && k <= |draws| && |Dedup(draws[..k])| == CodeLength
    ensures forall x :: x in Members(Dedup(draws[..k])) <==> x in FirstDistinct(draws)
  {
    DedupPrefix(draws, k);
    assert Dedup(draws[..k]) == FirstDistinct(draws);
  }

  /** The values of a sequence, as a set. */
  function Members(s: seq<int>): set<int> {
    set x | x in s
  }

  /** Adding draw k to the HashSet of the draws before it gives the set of the
      draws up to k, whose size is that of their de-duplication. */
  lemma HashSetStep(draws: seq<int>, k: nat)
    requires k < |draws|
    ensures Members(Dedup(draws[..k + 1])) == Members(Dedup(draws[..k])) + {draws[k]}
    ensures |Members(Dedup(draws[..k + 1]))| == |Dedup(draws[..k + 1])| <= |Dedup(draws[..k])| + 1
  {
    assert draws[..k + 1] == draws[..k] + [draws[k]];
    DedupSnoc(draws[..k], draws[k]);
    DistinctCard(Dedup(draws[..k + 1]));
  }

  /** Some member of a non-empty set; which one is left open. */
  method Pick(s: set<int>) returns (x: int)
    requires s != {}
    ensures x in s
  {
    NonEmptyHasMember(s);
    x :| x in s;
  }

  lemma NonEmptyHasMember(s: set<int>)
    requires s != {}
    ensures exists x :: x in s
  {
    if forall x :: x !in s {
      assert false;
    }
  }

  /** `new ArrayList<>(set)`: the members of a set, each once, in an order the
      language leaves open. */
  method Enumerate(s: set<int>) returns (r: seq<int>)
    ensures |r| == |s| && Distinct(r)
    ensures forall x :: x in r <==> x in s
  {
    r := [];
    var rest := s;
    while rest != {}
      invariant rest <= s && Distinct(r) && |r| + |rest| == |s|
      invariant forall x :: x in r <==> x in s && x !in rest
      decreases rest
    {
      var x := Pick(rest);
      r := r + [x];
      rest := rest - {x};
    }
  }

  /** generatePassword: fill a HashSet from the colour draws until it holds four
      colours, list it, shuffle the list and copy it into an array. The result is
      a password of the pool made of the first four distinct draws, in some order. */
  method GeneratePassword(colorPoolSize: int, draws: seq<int>, swaps: seq<int>) returns (password: seq<int>)
    requires |Dedup(draws)| >= CodeLength && InRange(draws, colorPoolSize)
    requires ValidSwapDraws(CodeLength, swaps)
    ensures IsSecret(password, colorPoolSize)
    ensures forall x :: x in password <==> x in FirstDistinct(draws)
  {
    var colors := DrawColors(draws);
    var colorList := Enumerate(colors);
    ListedColors(draws, colors, colorList, colorPoolSize);
    password := ShuffleCopy(colorList, swaps);
    ShuffleKeepsColors(colorList, swaps, colorPoolSize);
  }

  /** The listed HashSet is a password of the pool with the colours of the first
      four distinct draws. */
  lemma ListedColors(draws: seq<int>, colors: set<int>, colorList: seq<int>, colorPoolSize: int)
    requires |Dedup(draws)| >= CodeLength && InRange(draws, colorPoolSize)
    requires |colors| == CodeLength && forall x :: x in colors <==> x in FirstDistinct(draws)
    requires |colorList| == |colors| && Distinct(colorList) && forall x :: x in colorList <==> x in colors
    ensures IsSecret(colorList, colorPoolSize)
    ensures forall x :: x in colorList <==> x in FirstDistinct(draws)
  {
    forall i | 0 <= i < |colorList| ensures 0 <= colorList[i] < colorPoolSize {
      assert colorList[i] in colorList;
      assert colorList[i] in draws;
    }
  }

  /** `Collections.shuffle` on the list, then the copy into a fresh array. */
  method ShuffleCopy(colorList: seq<int>, swaps: seq<int>) returns (password: seq<int>)
    requires |colorList| == CodeLength && ValidSwapDraws(CodeLength, swaps)
    ensures password == FisherYates(colorList, swaps)
  {
    var shuffled := new int[CodeLength](i requires 0 <= i < CodeLength => colorList[i]);
    assert shuffled[..] == colorList;
    Shuffle(shuffled, swaps);
    var result := new int[CodeLength];
    for i := 0 to CodeLength
      modifies result
      invariant result[..i] == shuffled[..i]
    {
      result[i] := shuffled[i];
    }
    assert result[..] == result[..CodeLength] && shuffled[..] == shuffled[..CodeLength];
    password := result[..];
  }

  /** Shuffling a password keeps it a password with the same colours. */
  lemma ShuffleKeepsColors(s: seq<int>, swaps: seq<int>, n: int)
    requires IsSecret(s, n) && ValidSwapDraws(|s|, swaps)
    ensures IsSecret(FisherYates(s, swaps), n)
    ensures forall x :: x in FisherYates(s, swaps) <==> x in s
  {
    FisherYatesKeepsSecret(s, swaps, n);
    forall x ensures x in FisherYates(s, swaps) <==> x in s {
      assert x in FisherYates(s, swaps) <==> x in multiset(FisherYates(s, swaps));
      assert x in s <==> x in multiset(s);
    }
  }

  /** In easy mode the pool has exactly four colours, so a password uses each of
      them: it is an ordering of 0, 1, 2 and 3. */
  lemma EasyPasswordIsPermutation(p: seq<int>)
    requires IsSecret(p, PoolSize(false))
    ensures forall c :: c in p <==> 0 <= c < PoolSize(false)
  {
    var used := set x | x in p;
    DistinctCard(p);
    SubsetOfSameSize(used, {0, 1, 2, 3});
  }

  /** A subset as large as the set is the set. */
  lemma SubsetOfSameSize(a: set<int>, b: set<int>)
    requires a <= b && |a| == |b|
    ensures a == b
  {
    var d := b - a;
    assert b == a + d && a * d == {};
  }

  /** generateDefaultHints: draw four colours at a time, keeping each code that is
      not the password, until maxHints are kept. The hints are the first maxHints
      draws that differ from the password. */
  method GenerateDefaultHints(colorPoolSize: int, password: seq<int>, maxHints: nat, hintDraws: seq<seq<int>>)
    returns (hints: seq<seq<int>>)
    requires HintDraws(hintDraws, colorPoolSize) && Misses(hintDraws, password) >= maxHints
    ensures hints == Without(hintDraws, password)[..maxHints]
    ensures forall h :: h in hints ==> |h| == CodeLength && InRange(h, colorPoolSize) && h != password
  {
    hints := [];
    var k := 0;
    while |hints| < maxHints
      invariant k <= |hintDraws| && hints == Without(hintDraws[..k], password) && |hints| <= maxHints
      decreases |hintDraws| - k
    {
      assert k < |hintDraws| by {
        assert hintDraws[..|hintDraws|] == hintDraws;
      }
      assert hintDraws[k] in hintDraws;
      var guess := FillCode(hintDraws[k]);
      WithoutSnoc(hintDraws, k, password);
      if guess != password {
        hints := hints + [guess];
      }
      k := k + 1;
    }
    assert hintDraws == hintDraws[..k] + hintDraws[k..];
    WithoutAppend(hintDraws[..k], hintDraws[k..], password);
  }

  /** The inner loop of generateDefaultHints: a fresh four-slot array filled slot
      by slot from one draw of four colours. */
  method FillCode(draw: seq<int>) returns (code: seq<int>)
    requires |draw| == CodeLength
    ensures code == draw
  {
    var guess := new int[CodeLength];
    for i := 0 to CodeLength
      invariant guess[..i] == draw[..i]
    {
      guess[i] := draw[i];
    }
    assert guess[..] == guess[..CodeLength];
    code := guess[..];
  }

  /** Hard-mode scoring as displayHints does it: count the green lights (exact
      matches), tally the colours of the mismatched slots in two HashMaps, then add
      min(count in guess, count in password) over the guess colours, visited in
      the HashMap's unspecified order. The counts are those of the shared hard
      scorer, so the number of empty lights 4 - green - white is never negative. */
  method ScoreHard(guess: seq<int>, password: seq<int>) returns (green: nat, white: nat)
    requires |guess| == CodeLength && |password| == CodeLength
    ensures HardScore(green, white, CodeLength - green - white) == HardFeedback(guess, password)
    ensures green + white <= CodeLength
  {
    green := CountGreen(guess, password);
    var passwordColors, guessColors := TallyColors(guess, password);
    var inGuess, inPassword := multiset(MismatchedGuess(guess, password)), multiset(MismatchedSecret(guess, password));
    TallyCounts(MismatchedGuess(guess, password));
    TallyCounts(MismatchedSecret(guess, password));
    white := SumMinimumCounts(guessColors, passwordColors, inGuess, inPassword);
    HardFeedbackBounds(guess, password);
  }

  /** The green-light loop of the hard scorer: the number of slots where guess
      and password agree. */
  method CountGreen(guess: seq<int>, password: seq<int>) returns (green: nat)
    requires |guess| == CodeLength && |password| == CodeLength
    ensures green == Exact(guess, password)
  {
    green := 0;
    for j := 0 to CodeLength
      invariant green == Exact(guess[..j], password[..j])
    {
      PrefixStep(guess, password, j);
      if guess[j] == password[j] {
        green := green + 1;
      }
    }
    assert guess[..CodeLength] == guess && password[..CodeLength] == password;
  }

  /** The tally loop of the hard scorer: per colour, its count among the
      mismatched password slots and among the mismatched guess slots. */
  method TallyColors(guess: seq<int>, password: seq<int>) returns (passwordColors: map<int, nat>, guessColors: map<int, nat>)
    requires |guess| == |password|
    ensures passwordColors == TallyOf(MismatchedSecret(guess, password))
    ensures guessColors == TallyOf(MismatchedGuess(guess, password))
  {
    passwordColors, guessColors := map[], map[];
    for j := 0 to |guess|
      invariant passwordColors == TallyOf(MismatchedSecret(guess[..j], password[..j]))
      invariant guessColors == TallyOf(MismatchedGuess(guess[..j], password[..j]))
    {
      TallyStep(guess, password, j);
      if guess[j] != password[j] {
        passwordColors := Counted(passwordColors, password[j]);
        guessColors := Counted(guessColors, guess[j]);
      }
    }
    assert guess[..|guess|] == guess && password[..|guess|] == password;
  }

  /** The white-light loop over the entries of the guess HashMap, in whatever
      order it yields them. The ghost multiset `credited` holds what has been
      added so far; the sum is the size of the intersection of the two tallied
      multisets whatever the order. */
  method SumMinimumCounts(guessColors: map<int, nat>, passwordColors: map<int, nat>,
                          ghost inGuess: multiset<int>, ghost inPassword: multiset<int>)
    returns (white: nat)
    requires forall c :: CountOf(guessColors, c) == inGuess[c]
    requires forall c :: CountOf(passwordColors, c) == inPassword[c]
    ensures white == |inGuess * inPassword|
  {
    white := 0;
    ghost var credited: multiset<int> := multiset{};
    var entries := guessColors.Keys;
    while entries != {}
      invariant entries <= guessColors.Keys
      invariant forall c :: credited[c] == if c in guessColors && c !in entries then Min(inGuess[c], inPassword[c]) else 0
      invariant white == |credited|
      decreases entries
    {
      var color := Pick(entries);
      var countInGuess := guessColors[color];
      var countInPassword := CountOf(passwordColors, color);
      white := white + Min(countInGuess, countInPassword);
      credited := credited + Copies(color, Min(countInGuess, countInPassword));
      entries := entries - {color};
    }
    forall c ensures credited[c] == (inGuess * inPassword)[c] {
      if c !in guessColors {
        assert CountOf(guessColors, c) == 0;
      }
    }
    assert credited == inGuess * inPassword;
  }

  /** Number of ✓ marks. */
  function TickCount(marks: seq<Mark>): (n: nat)
    ensures n <= |marks|
  {
    if marks == [] then 0 else TickCount(marks[..|marks| - 1]) + (if marks[|marks| - 1] == Tick then 1 else 0)
  }

  /** One more mark adds one to the count exactly when it is a ✓. */
  lemma TickSnoc(marks: seq<Mark>, mark: Mark)
    ensures TickCount(marks + [mark]) == TickCount(marks) + (if mark == Tick then 1 else 0)
  {
    assert (marks + [mark])[..|marks|] == marks;
  }

  /** Easy-mode display: ✓ at the slots where guess and password agree, ✗
      elsewhere; there is no wrong-position mark. The ✓ count is the green count
      of the hard scorer, so four ✓ means the guess is the password. */
  method EasyMarks(guess: seq<int>, password: seq<int>) returns (marks: seq<Mark>)
    requires |guess| == CodeLength && |password| == CodeLength
    ensures |marks| == CodeLength
    ensures forall j :: 0 <= j < CodeLength ==> (marks[j] == Tick <==> guess[j] == password[j])
    ensures TickCount(marks) == Exact(guess, password)
    ensures TickCount(marks) == CodeLength <==> guess == password
  {
    marks := [];
    for j := 0 to CodeLength
      invariant |marks| == j
      invariant forall i :: 0 <= i < j ==> (marks[i] == Tick <==> guess[i] == password[i])
      invariant TickCount(marks) == Exact(guess[..j], password[..j])
    {
      PrefixStep(guess, password, j);
      var mark := if guess[j] == password[j] then Tick else Cross;
      TickSnoc(marks, mark);
      marks := marks + [mark];
    }
    assert guess[..CodeLength] == guess && password[..CodeLength] == password;
    ExactAll(guess, password);
  }

  /** The attempt loop of start, from a log and a number of remaining attempts:
      while attempts remain, read a line; a refused line costs nothing; an
      accepted one is logged, ends the game when it is the password and otherwise
      costs one attempt. */
  function Play(password: seq<int>, log: seq<seq<int>>, remaining: int, inputs: seq<seq<Token>>, pool: int): PlayResult
    decreases |inputs|
  {
    if remaining <= 0 then PlayResult(Lost, log)
    else if inputs == [] then PlayResult(OutOfInput, log)
    else if !Acceptable(inputs[0], pool) then Play(password, log, remaining, inputs[1..], pool)
    else
      var guess := Values(inputs[0]);
      if guess == password then PlayResult(Won, log + [guess])
      else Play(password, log + [guess], remaining - 1, inputs[1..], pool)
  }

  /** What the attempt loop promises: it only appends, and only valid guesses; the
      game is won exactly when the last appended guess is the password, and no
      earlier one is; at most `remaining` guesses are appended, and a lost game
      used every attempt on a guess. */
  lemma {:induction false} PlayOutcome(password: seq<int>, log: seq<seq<int>>, remaining: int, inputs: seq<seq<Token>>, pool: int)
    ensures var r := Play(password, log, remaining, inputs, pool);
      |log| <= |r.log| && r.log[..|log|] == log &&
      (forall i :: |log| <= i < |r.log| ==> |r.log[i]| == CodeLength && InRange(r.log[i], pool)) &&
      (r.outcome == Won <==> |r.log| > |log| && r.log[|r.log| - 1] == password) &&
      (forall i :: |log| <= i < |r.log| - 1 ==> r.log[i] != password) &&
      (|r.log| - |log| <= if remaining < 0 then 0 else remaining) &&
      (r.outcome == Lost ==> |r.log| - |log| == if remaining < 0 then 0 else remaining)
    decreases |inputs|
  {
    if remaining > 0 && inputs != [] {
      if !Acceptable(inputs[0], pool) {
        PlayOutcome(password, log, remaining, inputs[1..], pool);
      } else {
        var guess := Values(inputs[0]);
        if guess != password {
          PlayOutcome(password, log + [guess], remaining - 1, inputs[1..], pool);
          var r := Play(password, log + [guess], remaining - 1, inputs[1..], pool);
          assert r.log[..|log|] == (r.log[..|log| + 1])[..|log|];
        }
      }
    }
  }

  /** A refused line is skipped: the game goes on as if it had not been typed. */
  lemma PlaySkipsRefused(password: seq<int>, log: seq<seq<int>>, remaining: int, line: seq<Token>,
    inputs: seq<seq<Token>>, pool: int)
    requires remaining > 0 && !Acceptable(line, pool)
    ensures Play(password, log, remaining, [line] + inputs, pool) == Play(password, log, remaining, inputs, pool)
  {
    assert ([line] + inputs)[1..] == inputs;
  }

  /** There is no duplicate check: the same wrong guess typed twice is logged
      twice, and with two attempts left the game is then lost. */
  /** The attempt loop never reads the log it appends to: from any log it appends
      what it would append to an empty one, with the same outcome. In particular a
      guess equal to an earlier one is treated like any other guess. */
  lemma {:induction false} PlayIgnoresLog(password: seq<int>, log: seq<seq<int>>, remaining: int, inputs: seq<seq<Token>>, pool: int)
    ensures var r := Play(password, [], remaining, inputs, pool);
      Play(password, log, remaining, inputs, pool) == PlayResult(r.outcome, log + r.log)
    decreases |inputs|
  {
    if remaining > 0 && inputs != [] {
      if !Acceptable(inputs[0], pool) {
        PlayIgnoresLog(password, log, remaining, inputs[1..], pool);
      } else {
        var guess := Values(inputs[0]);
        assert [] + [guess] == [guess];
        if guess != password {
          PlayIgnoresLog(password, log + [guess], remaining - 1, inputs[1..], pool);
          PlayIgnoresLog(password, [guess], remaining - 1, inputs[1..], pool);
          var r := Play(password, [], remaining - 1, inputs[1..], pool);
          assert (log + [guess]) + r.log == log + ([guess] + r.log);
        }
      }
    } else {
      assert log + [] == log;
    }
  }

  /** A repeated wrong guess is logged again and costs an attempt, whatever the log
      already holds. */
  lemma RepeatCostsAttempt(password: seq<int>, log: seq<seq<int>>, remaining: int, line: seq<Token>, rest: seq<seq<Token>>, pool: int)
    requires remaining > 0 && Acceptable(line, pool) && Values(line) in log && Values(line) != password
    ensures Play(password, log, remaining, [line] + rest, pool) == Play(password, log + [Values(line)], remaining - 1, rest, pool)
  {
    assert ([line] + rest)[1..] == rest;
  }

  lemma PlayAcceptsRepeats()
    ensures var line := [Int(3), Int(2), Int(1), Int(0)];
      Play([0, 1, 2, 3], [], 2, [line, line], 4) == PlayResult(Lost, [[3, 2, 1, 0], [3, 2, 1, 0]])
  {
    var line := [Int(3), Int(2), Int(1), Int(0)];
    var password, guess := [0, 1, 2, 3], [3, 2, 1, 0];
    assert Values(line) == guess;
    assert Acceptable(line, 4);
    assert [line, line][1..] == [line] && [line][1..] == [];
    assert [] + [guess] == [guess] && [guess] + [guess] == [guess, guess];
    assert Play(password, [], 2, [line, line], 4) == Play(password, [guess], 1, [line], 4);
    assert Play(password, [guess], 1, [line], 4) == Play(password, [guess, guess], 0, [], 4);
  }

  class PasswordPuzzle {
    var password: seq<int>
    var guesses: seq<seq<int>>
    var isHardMode: bool
    var colorPoolSize: int

    /** A new game: no password yet, an empty log, easy mode, an empty pool. */
    constructor ()
      ensures password == [] && guesses == [] && !isHardMode && colorPoolSize == 0
    {
      password := [];
      guesses := [];
      isHardMode := false;
      colorPoolSize := 0;
    }

    /** getUserGuess: refuse a line without exactly four pieces, then one with a
        piece that is not an integer, then one with a colour outside the pool;
        otherwise log the guess. Only an accepted line changes the log. */
    method GetUserGuess(line: seq<Token>) returns (check: InputCheck)
      modifies this`guesses
      ensures check == WrongCount <==> |line| != CodeLength
      ensures check == NotNumber <==> |line| == CodeLength && !AllInts(line)
      ensures check == OutOfRange <==> |line| == CodeLength && AllInts(line) && !InRange(Values(line), colorPoolSize)
      ensures check == Accepted <==> Acceptable(line, colorPoolSize)
      ensures check == Accepted ==> guesses == old(guesses) + [Values(line)]
      ensures check != Accepted ==> guesses == old(guesses)
    {
      if |line| != CodeLength {
        return WrongCount;
      }
      var guess := new int[CodeLength];
      for i := 0 to CodeLength
        invariant guesses == old(guesses)
        invariant forall k :: 0 <= k < i ==> line[k].Int? && guess[k] == line[k].value
      {
        if line[i].NotInt? {
          return NotNumber;
        }
        guess[i] := line[i].value;
      }
      assert guess[..] == Values(line);
      for i := 0 to CodeLength
        invariant guesses == old(guesses)
        invariant InRange(guess[..i], colorPoolSize)
      {
        if guess[i] < 0 || guess[i] >= colorPoolSize {
          return OutOfRange;
        }
        assert guess[..i + 1] == guess[..i] + [guess[i]];
      }
      assert guess[..CodeLength] == guess[..];
      guesses := guesses + [guess[..]];
      return Accepted;
    }

    /** start: choose the mode, draw the password, log the hints, then give the
        player TotalRows minus the logged rows as attempts. */
    method Start(hardMode: bool, draws: seq<int>, swaps: seq<int>, hintCount: nat, hintDraws: seq<seq<int>>,
      inputs: seq<seq<Token>>) returns (outcome: Outcome)
      requires |Dedup(draws)| >= CodeLength && InRange(draws, PoolSize(hardMode))
      requires ValidSwapDraws(CodeLength, swaps)
      requires 1 <= hintCount <= MaxHints && HintSupply(hintDraws, hintCount, PoolSize(hardMode))
      modifies this
      ensures isHardMode == hardMode && colorPoolSize == PoolSize(hardMode)
      ensures IsSecret(password, colorPoolSize) && forall x :: x in password <==> x in FirstDistinct(draws)
      ensures var logged := old(guesses) + Without(hintDraws, password)[..hintCount];
        PlayResult(outcome, guesses) == Play(password, logged, TotalRows - |logged|, inputs, colorPoolSize)
    {
      var pool := PoolSize(hardMode);
      var secret := GeneratePassword(pool, draws, swaps);
      var defaultHints := GenerateDefaultHints(pool, secret, hintCount, hintDraws);
      isHardMode, colorPoolSize, password := hardMode, pool, secret;
      guesses := guesses + defaultHints;
      outcome := PlayAttempts(inputs);
    }

    /** The main loop of start: while attempts remain, read a line; a refused line
        costs nothing; an accepted guess equal to the password wins, any other
        costs one attempt. The outcome and the log are what Play describes. */
    method PlayAttempts(inputs: seq<seq<Token>>) returns (outcome: Outcome)
      modifies this`guesses
      ensures PlayResult(outcome, guesses) == Play(password, old(guesses), TotalRows - |old(guesses)|, inputs, colorPoolSize)
    {
      var remainingAttempts: int := TotalRows - |guesses|;
      var next := 0;
      while remainingAttempts > 0
        invariant next <= |inputs|
        invariant Play(password, guesses, remainingAttempts, inputs[next..], colorPoolSize) ==
          Play(password, old(guesses), TotalRows - |old(guesses)|, inputs, colorPoolSize)
        decreases |inputs| - next
      {
        if next == |inputs| {
          return OutOfInput;
        }
        assert inputs[next..][1..] == inputs[next + 1..];
        var check := GetUserGuess(inputs[next]);
        next := next + 1;
        if check == Accepted {
          if guesses[|guesses| - 1] == password {
            return Won;
          }
          remainingAttempts := remainingAttempts - 1;
        }
      }
      return Lost;
    }
  }
}
