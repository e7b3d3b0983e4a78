/**
 * The game engine of one word length: the word list and its normalised
 * set, the secret word of the round and the log of submitted guesses, with
 * the two-pass scorer, the dictionary check and the hint selection.
 */
module Logic {
  import opened GameState
  import opened StringUtils
  import opened Uppercase
  import opened Evaluation

  /** A count looked up with default 0, as `getOrDefault(c, 0)` does. */
  function Get(m: map<char, int>, c: char): int
  {
    if c in m then m[c] else 0
  }

  /** The letter histogram of `s` (`groupingBy { it }.eachCount()`). */
  function LetterCounts(s: string): (m: map<char, int>)
    ensures forall c :: Get(m, c) == Count(s, c)
    ensures forall c :: c in m ==> m[c] > 0
  {
    if s == [] then map[]
    else
      var m := LetterCounts(s[..|s| - 1]);
      m[s[|s| - 1] := Get(m, s[|s| - 1]) + 1]
  }

  /**
   * The two passes of the scorer over already normalised words: exact
   * matches first, each using up one copy of its letter, then
   * WRONG_POSITION for the remaining letters while copies are left.
   */
  method Score(secret: string, guess: string, wordLength: nat) returns (result: seq<LetterStatus>)
    requires |secret| == wordLength && |guess| == wordLength
    ensures result == Evaluate(secret, guess)
  {
    var statuses := new LetterStatus[wordLength](_ => Incorrect);
    var counts := LetterCounts(secret);
    counts := MarkExact(secret, guess, statuses, counts);
    MarkMisplaced(secret, guess, statuses, counts);
    result := statuses[..];
  }

  /**
   * The first pass: every exact match becomes CORRECT and uses up one copy
   * of its letter; afterwards each count is the letter's unmatched copies,
   * never negative.
   */
  method MarkExact(secret: string, guess: string, statuses: array<LetterStatus>, initial: map<char, int>)
    returns (counts: map<char, int>)
    requires |secret| == |guess| == statuses.Length
    requires forall j :: 0 <= j < statuses.Length ==> statuses[j] == Incorrect
    requires forall c :: Get(initial, c) == Count(secret, c)
    modifies statuses
    ensures forall j :: 0 <= j < statuses.Length ==>
              statuses[j] == (if guess[j] == secret[j] then Correct else Incorrect)
    ensures MisplacedPassCounts(secret, guess, 0, counts)
  {
    counts := initial;
    var i := 0;
    while i < statuses.Length
      invariant 0 <= i <= statuses.Length
      invariant forall j :: 0 <= j < i ==> statuses[j] == (if guess[j] == secret[j] then Correct else Incorrect)
      invariant forall j :: i <= j < statuses.Length ==> statuses[j] == Incorrect
      invariant ExactPassCounts(secret, guess, i, counts)
    {
      ghost var before := counts;
      if guess[i] == secret[i] {
        statuses[i] := Correct;
        counts := counts[guess[i] := Get(counts, guess[i]) - 1];
      }
      ExactPassStep(secret, guess, i, before, counts);
      i := i + 1;
    }
  }

  /**
   * The second pass: a position not matched exactly becomes WRONG_POSITION
   * while its letter has copies left, each use taking one copy; the result
   * is the scoring of the guess.
   */
  method MarkMisplaced(secret: string, guess: string, statuses: array<LetterStatus>, initial: map<char, int>)
    requires |secret| == |guess| == statuses.Length
    requires forall j :: 0 <= j < statuses.Length ==>
               statuses[j] == (if guess[j] == secret[j] then Correct else Incorrect)
    requires MisplacedPassCounts(secret, guess, 0, initial)
    modifies statuses
    ensures statuses[..] == Evaluate(secret, guess)
  {
    var counts := initial;
    var i := 0;
    while i < statuses.Length
      invariant 0 <= i <= statuses.Length
      invariant ScoredUpTo(secret, guess, statuses[..], i)
      invariant MisplacedPassCounts(secret, guess, i, counts)
    {
      ghost var before := counts;
      ghost var snapshot := statuses[..];
      if statuses[i] == Incorrect {
        if Get(counts, guess[i]) > 0 {
          statuses[i] := WrongPosition;
          counts := counts[guess[i] := Get(counts, guess[i]) - 1];
        }
      }
      MisplacedPassStep(secret, guess, i, before, counts, statuses[i]);
      assert statuses[..] == snapshot[i := statuses[i]];
      ScoredStep(secret, guess, snapshot, i, statuses[i]);
      i := i + 1;
    }
    ScoredAll(secret, guess, statuses[..]);
  }

  /**
   * The statuses of the second pass after i positions: the first i are
   * final, the rest still hold the result of the first pass.
   */
  ghost predicate ScoredUpTo(secret: string, guess: string, statuses: seq<LetterStatus>, i: nat)
    requires |secret| == |guess| == |statuses| && i <= |guess|
  {
    && (forall j :: 0 <= j < i ==> statuses[j] == StatusAt(secret, guess, j))
    && (forall j :: i <= j < |statuses| ==> statuses[j] == (if guess[j] == secret[j] then Correct else Incorrect))
  }

  lemma ScoredStep(secret: string, guess: string, statuses: seq<LetterStatus>, i: nat, status: LetterStatus)
    requires |secret| == |guess| == |statuses| && i < |guess|
    requires ScoredUpTo(secret, guess, statuses, i)
    requires status == StatusAt(secret, guess, i)
    ensures ScoredUpTo(secret, guess, statuses[i := status], i + 1)
  {
  }

  lemma ScoredAll(secret: string, guess: string, statuses: seq<LetterStatus>)
    requires |secret| == |guess| == |statuses|
    requires ScoredUpTo(secret, guess, statuses, |guess|)
    ensures statuses == Evaluate(secret, guess)
  {
  }

  function Max0(x: int): nat
  {
    if x < 0 then 0 else x
  }

  /** Exact matches only accumulate as more positions are scanned. */
  lemma {:induction false} ExactMonotone(secret: string, guess: string, c: char, i: nat, k: nat)
    requires i <= k <= |secret| && k <= |guess|
    ensures ExactCount(secret, guess, c, i) <= ExactCount(secret, guess, c, k)
  {
    if i < k {
      ExactMonotone(secret, guess, c, i, k - 1);
    }
  }

  /** After i positions of the first pass, each count is the copies of its letter not matched exactly. */
  ghost predicate ExactPassCounts(secret: string, guess: string, i: nat, counts: map<char, int>)
    requires i <= |secret| && i <= |guess|
  {
    && (forall c :: Get(counts, c) == Count(secret, c) - ExactCount(secret, guess, c, i))
    && (forall c :: Get(counts, c) >= 0)
  }

  /** After i positions of the second pass, each count is the unmatched copies not yet given out. */
  ghost predicate MisplacedPassCounts(secret: string, guess: string, i: nat, counts: map<char, int>)
    requires |secret| == |guess| && i <= |guess|
  {
    forall c :: Get(counts, c) == Max0(Unmatched(secret, guess, c) - MisplacedCount(secret, guess, c, i))
  }

  /** One step of the first pass keeps the counts equal to the copies not yet matched exactly. */
  lemma ExactPassStep(secret: string, guess: string, i: nat, before: map<char, int>, after: map<char, int>)
    requires |secret| == |guess| && i < |guess|
    requires ExactPassCounts(secret, guess, i, before)
    requires after == if guess[i] == secret[i] then before[guess[i] := Get(before, guess[i]) - 1] else before
    ensures ExactPassCounts(secret, guess, i + 1, after)
  {
    forall c ensures Get(after, c) >= 0 {
      ExactMonotone(secret, guess, c, i + 1, |guess|);
      UnmatchedNonNegative(secret, guess, c);
    }
  }

  /**
   * One step of the second pass keeps each count equal to the unmatched
   * copies not yet given out as WRONG_POSITION.
   */
  lemma MisplacedPassStep(secret: string, guess: string, i: nat, before: map<char, int>, after: map<char, int>,
                          status: LetterStatus)
    requires |secret| == |guess| && i < |guess|
    requires MisplacedPassCounts(secret, guess, i, before)
    requires after == if guess[i] != secret[i] && Get(before, guess[i]) > 0
                      then before[guess[i] := Get(before, guess[i]) - 1] else before
    requires status == if guess[i] == secret[i] then Correct
                       else if Get(before, guess[i]) > 0 then WrongPosition else Incorrect
    ensures MisplacedPassCounts(secret, guess, i + 1, after)
    ensures status == StatusAt(secret, guess, i)
  {
  }

  /**
   * Position i of the secret already appears in `guess`, up to accents
   * (`getOrNull` yields null past the end of a shorter guess, so a short
   * guess never covers the positions it lacks).
   */
  predicate GuessedAt(guess: string, secret: string, i: nat)
    requires i < |secret|
  {
    i < |guess| && Normalize(guess)[i] == NormalizeChar(secret[i])
  }

  /** The word list as loaded: every line upper-cased, in order. */
  function UpperAll(lines: seq<string>): (words: seq<string>)
    ensures |words| == |lines|
    ensures forall i :: 0 <= i < |lines| ==> words[i] == Upper(lines[i])
    ensures forall w :: w in words ==> IsUpper(w)
  {
    if lines == [] then []
    else
      UpperIsUpper(lines[0]);
      [Upper(lines[0])] + UpperAll(lines[1..])
  }

  class GameLogic {
    const wordLength: nat
    const wordList: seq<string>
    const normalizedWordSet: set<string>
    var secretWord: string
    var guesses: seq<string>

    /** The loaded dictionary: upper-case words of the right length and their normalised set. */
    ghost predicate WordsLoaded()
    {
      && normalizedWordSet == (set w | w in wordList :: Normalize(w))
      && (forall w :: w in wordList ==> |w| == wordLength && IsUpper(w))
    }

    ghost predicate Valid()
      reads this
    {
      && WordsLoaded()
      && (wordList != [] ==> secretWord in wordList)
      && (wordList == [] ==> secretWord == "")
    }

    /**
     * Builds the engine from the lines of the word-list resource: every
     * line is upper-cased, the normalised set is built from the upper-cased
     * words, and a first round is started.
     */
    constructor (lines: seq<string>, wordLength: nat)
      requires forall l :: l in lines ==> |l| == wordLength
      ensures Valid()
      ensures this.wordLength == wordLength
      ensures wordList == UpperAll(lines)
      ensures guesses == []
    {
      this.wordLength := wordLength;
      var words := UpperAll(lines);
      wordList := words;
      normalizedWordSet := set w | w in words :: Normalize(w);
      secretWord := "";
      guesses := [];
      new;
      StartNewGame();
    }

    /** A word is accepted when its upper-cased, normalised form is a normalised dictionary word. */
    function IsValidWord(word: string): (r: bool)
      requires WordsLoaded()
      ensures r <==> exists w :: w in wordList && Normalize(w) == Normalize(Upper(word))
    {
      Normalize(Upper(word)) in normalizedWordSet
    }

    /**
     * Starts a round: with a non-empty list, some word of it becomes the
     * secret and the guess log is cleared; with an empty list nothing changes.
     */
    method StartNewGame()
      requires WordsLoaded() && (wordList == [] ==> secretWord == "")
      modifies this
      ensures Valid()
      ensures wordList != [] ==> secretWord in wordList && guesses == []
      ensures wordList == [] ==> secretWord == old(secretWord) && guesses == old(guesses)
    {
      if |wordList| > 0 {
        var k :| 0 <= k < |wordList|;
        secretWord := wordList[k];
        guesses := [];
      }
    }

    /**
     * Scores a guess against the secret, both normalised, and logs the
     * upper-cased (not normalised) guess.
     */
    method SubmitGuess(guess: string) returns (result: seq<LetterStatus>)
      requires Valid()
      requires |guess| == wordLength && |secretWord| == wordLength
      modifies this
      ensures Valid()
      ensures guesses == old(guesses) + [Upper(guess)]
      ensures secretWord == old(secretWord)
      ensures |result| == wordLength
      ensures result == Evaluate(Normalize(secretWord), Normalize(Upper(guess)))
    {
      var upperGuess := Upper(guess);
      guesses := guesses + [upperGuess];
      var normalizedSecret := Normalize(secretWord);
      var normalizedGuess := Normalize(upperGuess);
      result := Score(normalizedSecret, normalizedGuess, wordLength);
    }

    /**
     * A position may be hinted when no logged guess has its letter there,
     * the typed buffer does not have it at that index, and it was not
     * hinted already.
     */
    predicate IsHintCandidate(currentGuess: string, revealedHints: map<int, char>, i: nat)
      reads this
      requires i < |secretWord|
    {
      && (forall g :: g in guesses ==> !GuessedAt(g, secretWord, i))
      && !GuessedAt(currentGuess, secretWord, i)
      && i !in revealedHints
    }

    /** No position can be hinted. */
    predicate NoHintCandidate(currentGuess: string, revealedHints: map<int, char>)
      reads this
    {
      forall i :: 0 <= i < |secretWord| ==> !IsHintCandidate(currentGuess, revealedHints, i)
    }

    /**
     * Picks some hint candidate and pairs it with the secret's letter there;
     * None exactly when there is no candidate.
     */
    method GetHint(currentGuess: string, revealedHints: map<int, char>) returns (hint: Option<(int, char)>)
      ensures hint.None? <==> NoHintCandidate(currentGuess, revealedHints)
      ensures hint.Some? ==>
                && 0 <= hint.value.0 < |secretWord|
                && IsHintCandidate(currentGuess, revealedHints, hint.value.0)
                && hint.value.1 == secretWord[hint.value.0]
    {
      var candidates := set i: nat | i < |secretWord| && IsHintCandidate(currentGuess, revealedHints, i);
      assert forall i :: 0 <= i < |secretWord| && IsHintCandidate(currentGuess, revealedHints, i) ==> i in candidates;
      if candidates == {} {
        return None;
      }
      var i :| i in candidates;
      return Some((i, secretWord[i]));
    }

    /** Every dictionary word is accepted as a guess, as typed. */
    lemma WordListAccepted(w: string)
      requires Valid() && w in wordList
      ensures IsValidWord(w)
    {
      UpperOfUpper(w);
    }
  }
}
