/**
 * Reference definition of guess scoring, stated position by position
 * rather than as the two passes over a letter-count map that the game runs,
 * and the properties of that definition: exact matches are CORRECT, and each
 * letter receives exactly min(#letter in guess, #letter in secret) marks
 * that are not INCORRECT.
 *
 * Both words are assumed already normalised; see Logic for where that happens.
 */
module Evaluation {
  import opened GameState

  /** Occurrences of `c` in `s`. */
  function Count(s: string, c: char): nat
  {
    if s == [] then 0 else Count(s[..|s| - 1], c) + (if s[|s| - 1] == c then 1 else 0)
  }

  /** Positions j < k where the guess holds `c` and matches the secret. */
  function ExactCount(secret: string, guess: string, c: char, k: nat): nat
    requires k <= |secret| && k <= |guess|
  {
    if k == 0 then 0
    else ExactCount(secret, guess, c, k - 1) + (if guess[k - 1] == secret[k - 1] && guess[k - 1] == c then 1 else 0)
  }

  /** Positions j < k where the guess holds `c` and does not match the secret. */
  function MisplacedCount(secret: string, guess: string, c: char, k: nat): nat
    requires k <= |secret| && k <= |guess|
  {
    if k == 0 then 0
    else MisplacedCount(secret, guess, c, k - 1) + (if guess[k - 1] != secret[k - 1] && guess[k - 1] == c then 1 else 0)
  }

  /** Copies of `c` in the secret that no exact match uses up. */
  function Unmatched(secret: string, guess: string, c: char): int
    requires |secret| == |guess|
  {
    Count(secret, c) - ExactCount(secret, guess, c, |guess|)
  }

  /**
   * Status of position i: CORRECT on an exact match; otherwise the k-th
   * misplaced occurrence of a letter (counting from 0, left to right) is
   * WRONG_POSITION while k is below the number of unmatched copies of that
   * letter in the secret, and INCORRECT after that.
   */
  function StatusAt(secret: string, guess: string, i: nat): LetterStatus
    requires |secret| == |guess| && i < |guess|
  {
    if guess[i] == secret[i] then Correct
    else if MisplacedCount(secret, guess, guess[i], i) < Unmatched(secret, guess, guess[i]) then WrongPosition
    else Incorrect
  }

  /** The statuses of a whole guess. */
  function Evaluate(secret: string, guess: string): seq<LetterStatus>
    requires |secret| == |guess|
  {
    seq(|guess|, i requires 0 <= i < |guess| => StatusAt(secret, guess, i))
  }

  /** Positions j < k holding `c` in `word` whose status is not INCORRECT. */
  function Marked(word: string, statuses: seq<LetterStatus>, c: char, k: nat): nat
    requires k <= |word| && k <= |statuses|
  {
    if k == 0 then 0
    else Marked(word, statuses, c, k - 1) + (if word[k - 1] == c && statuses[k - 1] != Incorrect then 1 else 0)
  }

  function Min(a: int, b: int): int
  {
    if a < b then a else b
  }

  /** No letter occurs twice. */
  predicate NoRepeats(s: string)
  {
    forall a, b :: 0 <= a < b < |s| ==> s[a] != s[b]
  }

  // ----- Counting facts -----

  lemma CountSnoc(s: string, k: nat, c: char)
    requires k < |s|
    ensures Count(s[..k + 1], c) == Count(s[..k], c) + (if s[k] == c then 1 else 0)
  {
    assert s[..k + 1][..k] == s[..k];
  }

  /** A letter that does not occur is counted zero times. */
  lemma {:induction false} CountAbsent(s: string, c: char)
    requires c !in s
    ensures Count(s, c) == 0
  {
    if s != [] {
      assert c !in s[..|s| - 1];
      CountAbsent(s[..|s| - 1], c);
    }
  }

  /** In a word without repeated letters, a letter that occurs is counted once. */
  lemma {:induction false} CountDistinct(s: string, c: char)
    requires NoRepeats(s) && c in s
    ensures Count(s, c) == 1
  {
    var p := s[..|s| - 1];
    var x := s[|s| - 1];
    assert NoRepeats(p);
    if x == c {
      assert c !in p by {
        forall j | 0 <= j < |p| ensures p[j] != c {
          assert s[j] != s[|s| - 1];
        }
      }
      CountAbsent(p, c);
    } else {
      assert c in p by {
        var j :| 0 <= j < |s| && s[j] == c;
        assert j < |s| - 1 && p[j] == c;
      }
      CountDistinct(p, c);
    }
  }

  /**
   * Exact matches of `c` never outnumber the copies of `c` in the secret;
   * when they are fewer, some copy sits at a position the guess missed.
   */
  lemma {:induction false} ExactWithinSecret(secret: string, guess: string, c: char, k: nat)
    requires |secret| == |guess| && k <= |secret|
    ensures ExactCount(secret, guess, c, k) <= Count(secret[..k], c)
    ensures ExactCount(secret, guess, c, k) < Count(secret[..k], c) ==>
              exists j :: 0 <= j < k && secret[j] == c && guess[j] != secret[j]
  {
    if k > 0 {
      ExactWithinSecret(secret, guess, c, k - 1);
      CountSnoc(secret, k - 1, c);
    }
  }

  /** An exact match of `c` has a position. */
  lemma {:induction false} ExactWitness(secret: string, guess: string, c: char, k: nat)
    requires k <= |secret| && k <= |guess|
    requires ExactCount(secret, guess, c, k) > 0
    ensures exists j :: 0 <= j < k && guess[j] == secret[j] && guess[j] == c
  {
    if ExactCount(secret, guess, c, k - 1) > 0 {
      ExactWitness(secret, guess, c, k - 1);
    }
  }

  /** Every occurrence of `c` in the guess is either an exact match or misplaced. */
  lemma {:induction false} GuessCountSplit(secret: string, guess: string, c: char, k: nat)
    requires k <= |secret| && k <= |guess|
    ensures Count(guess[..k], c) == ExactCount(secret, guess, c, k) + MisplacedCount(secret, guess, c, k)
  {
    if k > 0 {
      GuessCountSplit(secret, guess, c, k - 1);
      CountSnoc(guess, k - 1, c);
    }
  }

  /** The copies of `c` left after exact matches are never negative. */
  lemma UnmatchedNonNegative(secret: string, guess: string, c: char)
    requires |secret| == |guess|
    ensures Unmatched(secret, guess, c) >= 0
  {
    ExactWithinSecret(secret, guess, c, |secret|);
    assert secret[..|secret|] == secret;
  }

  // ----- Properties of the scoring -----

  /** A guess is scored letter by letter: one status per letter, CORRECT exactly on a match. */
  lemma EvaluateCorrectIffMatch(secret: string, guess: string, i: nat)
    requires |secret| == |guess| && i < |guess|
    ensures |Evaluate(secret, guess)| == |guess|
    ensures Evaluate(secret, guess)[i] == Correct <==> guess[i] == secret[i]
  {
  }

  /** Every status is CORRECT exactly when the guess is the secret. */
  lemma AllCorrectIffEqual(secret: string, guess: string)
    requires |secret| == |guess|
    ensures AllCorrect(Evaluate(secret, guess)) <==> guess == secret
  {
    var r := Evaluate(secret, guess);
    if AllCorrect(r) {
      forall i | 0 <= i < |guess| ensures guess[i] == secret[i] {
        assert r[i] == Correct;
      }
    }
  }

  /**
   * WRONG_POSITION is given only to a letter that does not match and that
   * occurs in the secret at a position the guess did not match.
   */
  lemma WrongPositionWitness(secret: string, guess: string, i: nat)
    requires |secret| == |guess| && i < |guess|
    requires Evaluate(secret, guess)[i] == WrongPosition
    ensures guess[i] != secret[i]
    ensures exists j :: 0 <= j < |secret| && secret[j] == guess[i] && guess[j] != secret[j]
  {
    var c := guess[i];
    assert Unmatched(secret, guess, c) > 0;
    ExactWithinSecret(secret, guess, c, |secret|);
    assert secret[..|secret|] == secret;
  }

  /** Count of the marked positions after the first k letters. */
  lemma {:induction false} MarkedPrefix(secret: string, guess: string, c: char, k: nat)
    requires |secret| == |guess| && k <= |guess|
    ensures Marked(guess, Evaluate(secret, guess), c, k)
            == ExactCount(secret, guess, c, k) + Min(MisplacedCount(secret, guess, c, k), Unmatched(secret, guess, c))
  {
    UnmatchedNonNegative(secret, guess, c);
    if k > 0 {
      MarkedPrefix(secret, guess, c, k - 1);
    }
  }

  /**
   * The duplicate-letter rule: for every letter, the positions of the guess
   * holding it that are not INCORRECT number exactly the smaller of its count
   * in the guess and its count in the secret; in particular never more than
   * the secret holds.
   */
  lemma MarkedLetters(secret: string, guess: string, c: char)
    requires |secret| == |guess|
    ensures Marked(guess, Evaluate(secret, guess), c, |guess|) == Min(Count(guess, c), Count(secret, c))
    ensures Marked(guess, Evaluate(secret, guess), c, |guess|) <= Count(secret, c)
  {
    MarkedPrefix(secret, guess, c, |guess|);
    GuessCountSplit(secret, guess, c, |guess|);
    assert guess[..|guess|] == guess;
  }

  /**
   * When neither word repeats a letter, a non-matching letter is
   * WRONG_POSITION exactly when it occurs in the secret.
   */
  lemma DistinctLettersWrongPosition(secret: string, guess: string, i: nat)
    requires |secret| == |guess| && i < |guess|
    requires NoRepeats(secret) && NoRepeats(guess)
    ensures Evaluate(secret, guess)[i] == WrongPosition <==> guess[i] != secret[i] && guess[i] in secret
  {
    var c := guess[i];
    if guess[i] != secret[i] && c in secret {
      CountDistinct(secret, c);
      forall j | 0 <= j < |guess| && guess[j] == c ensures guess[j] != secret[j] {
        assert j == i;
      }
      if ExactCount(secret, guess, c, |guess|) > 0 {
        ExactWitness(secret, guess, c, |guess|);
      }
      assert c !in guess[..i] by {
        forall j | 0 <= j < i ensures guess[j] != c {
          assert guess[j] != guess[i];
        }
      }
      CountAbsent(guess[..i], c);
      GuessCountSplit(secret, guess, c, i);
      assert MisplacedCount(secret, guess, c, i) == 0;
    } else if Evaluate(secret, guess)[i] == WrongPosition {
      WrongPositionWitness(secret, guess, i);
    }
  }

  /**
   * A worked example with repeated letters: the secret holds two A's and one
   * of them is used up by the exact match at position 1, so the A at
   * position 4 is still WRONG_POSITION.
   */
  lemma ScoringExampleCasas()
    ensures Evaluate("CASAS", "SALSA") == [WrongPosition, Correct, Incorrect, WrongPosition, WrongPosition]
  {
    var s, g := "CASAS", "SALSA";
    CasasCounts();
    CasasExact();
    assert MisplacedCount(s, g, 'S', 1) == 1 && MisplacedCount(s, g, 'S', 3) == 1;
    assert MisplacedCount(s, g, 'A', 2) == 0 && MisplacedCount(s, g, 'A', 4) == 0;
    assert StatusAt(s, g, 0) == WrongPosition && StatusAt(s, g, 1) == Correct && StatusAt(s, g, 2) == Incorrect;
    assert StatusAt(s, g, 3) == WrongPosition && StatusAt(s, g, 4) == WrongPosition;
  }

  lemma CasasCounts()
    ensures Count("CASAS", 'S') == 2 && Count("CASAS", 'A') == 2 && Count("CASAS", 'L') == 0
  {
    assert "CASAS"[..4] == "CASA" && "CASA"[..3] == "CAS" && "CAS"[..2] == "CA" && "CA"[..1] == "C";
  }

  lemma CasasExact()
    ensures ExactCount("CASAS", "SALSA", 'A', 5) == 1 && ExactCount("CASAS", "SALSA", 'S', 5) == 0
  {
    var s, g := "CASAS", "SALSA";
    assert ExactCount(s, g, 'A', 1) == 0 && ExactCount(s, g, 'A', 2) == 1;
    assert ExactCount(s, g, 'A', 3) == 1 && ExactCount(s, g, 'A', 4) == 1;
    assert ExactCount(s, g, 'S', 1) == 0;
    assert ExactCount(s, g, 'S', 2) == 0;
    assert ExactCount(s, g, 'S', 3) == 0;
    assert ExactCount(s, g, 'S', 4) == 0;
  }

  /** The two O's of the guess receive the two O's of the secret, one of them exactly. */
  lemma ScoringExampleRobot()
    ensures Evaluate("ROBOT", "MOONS") == [Incorrect, Correct, WrongPosition, Incorrect, Incorrect]
  {
    var s, g := "ROBOT", "MOONS";
    RobotCounts();
    RobotExact();
    assert MisplacedCount(s, g, 'O', 1) == 0 && MisplacedCount(s, g, 'O', 2) == 0;
    assert StatusAt(s, g, 0) == Incorrect && StatusAt(s, g, 1) == Correct && StatusAt(s, g, 2) == WrongPosition;
    assert StatusAt(s, g, 3) == Incorrect && StatusAt(s, g, 4) == Incorrect;
  }

  lemma RobotCounts()
    ensures Count("ROBOT", 'O') == 2 && Count("ROBOT", 'M') == 0 && Count("ROBOT", 'N') == 0
    ensures Count("ROBOT", 'S') == 0
  {
    assert "ROBOT"[..4] == "ROBO" && "ROBO"[..3] == "ROB" && "ROB"[..2] == "RO" && "RO"[..1] == "R";
  }

  lemma RobotExact()
    ensures ExactCount("ROBOT", "MOONS", 'O', 5) == 1
    ensures ExactCount("ROBOT", "MOONS", 'M', 5) == 0 && ExactCount("ROBOT", "MOONS", 'N', 5) == 0
    ensures ExactCount("ROBOT", "MOONS", 'S', 5) == 0
  {
    var s, g := "ROBOT", "MOONS";
    assert ExactCount(s, g, 'O', 1) == 0 && ExactCount(s, g, 'O', 2) == 1 && ExactCount(s, g, 'O', 3) == 1;
    assert ExactCount(s, g, 'O', 4) == 1;
  }
}
