/**
 * Shared game-state definitions: the per-letter status of a scored guess,
 * the status of a round, and one submitted guess as the board shows it.
 */
module GameState {

  /** Outcome of scoring one letter of a guess. */
  datatype LetterStatus = Correct | WrongPosition | Incorrect

  /** Progress of a round: PLAYING until it is won or lost. */
  datatype GameStatus = Playing | Won | Lost

  /**
   * One submitted guess: the word as assembled, its per-letter statuses and
   * whether the board has flipped it yet.
   */
  datatype Guess = Guess(word: string, statuses: seq<LetterStatus>, isRevealed: bool)

  datatype Option<T> = None | Some(value: T)

  /** Number of attempts in a round: the engine's `maxAttempts`, read by the session to detect a loss. */
  const MaxAttempts: nat := 6

  /** The order in which keyboard statuses may only move up: INCORRECT < WRONG_POSITION < CORRECT. */
  function Rank(s: LetterStatus): nat
  {
    match s
    case Incorrect => 0
    case WrongPosition => 1
    case Correct => 2
  }

  /** The better of two statuses under Rank. */
  function Higher(a: LetterStatus, b: LetterStatus): (r: LetterStatus)
    ensures Rank(a) <= Rank(r) && Rank(b) <= Rank(r)
    ensures r == a || r == b
  {
    if Rank(a) < Rank(b) then b else a
  }

  /** Every status of a scored guess is CORRECT. */
  predicate AllCorrect(statuses: seq<LetterStatus>)
  {
    forall i :: 0 <= i < |statuses| ==> statuses[i] == Correct
  }
}
