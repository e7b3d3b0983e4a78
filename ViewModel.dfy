/**
 * The game session: the screen state record and the handlers that rewrite
 * it on key presses, submissions, hints and resets. The engine of the
 * current word length is held as `logic`.
 */
module ViewModel {
  import opened GameState
  import opened StringUtils
  import opened Uppercase
  import opened Evaluation
  import opened Logic

  /** The snapshot the screen renders. */
  datatype GameUiState = GameUiState(
    wordLength: nat,
    submittedGuesses: seq<Guess>,
    currentGuess: string,
    keyStatuses: map<char, LetterStatus>,
    gameStatus: GameStatus,
    showHintDialog: bool,
    revealedHints: map<int, char>,
    triggerShake: int)

  /** A fresh screen state for the given word length. */
  function InitialState(wordLength: nat): GameUiState
  {
    GameUiState(wordLength, [], "", map[], Playing, false, map[], 0)
  }

  // ----- Assembling the submitted word from hints and typed letters -----

  /** Positions j < k that no hint fills, i.e. that take a typed letter. */
  function FreeSlots(hints: map<int, char>, k: nat): nat
  {
    if k == 0 then 0 else FreeSlots(hints, k - 1) + (if k - 1 in hints then 0 else 1)
  }

  /** An unhinted position i < n is followed by at least one more free slot up to n. */
  lemma {:induction false} FreeSlotsStrict(hints: map<int, char>, i: nat, n: nat)
    requires i < n && i !in hints
    ensures FreeSlots(hints, i) < FreeSlots(hints, n)
  {
    if i < n - 1 {
      FreeSlotsStrict(hints, i, n - 1);
    }
  }

  /**
   * The word a submission would score: each hinted position holds its hint,
   * the other positions take the typed letters in order; None when the
   * typed letters run out first. Typed letters beyond the free slots are
   * not used.
   */
  function Assemble(hints: map<int, char>, typed: string, wordLength: nat): Option<string>
  {
    if |typed| < FreeSlots(hints, wordLength) then None
    else Some(seq(wordLength, i requires 0 <= i < wordLength => SlotLetter(hints, typed, i)))
  }

  /**
   * The letter of position i: its hint, or else the typed letter that the
   * free slots before it point to (a blank only where the buffer is too
   * short, which Assemble never uses).
   */
  function SlotLetter(hints: map<int, char>, typed: string, i: nat): char
  {
    if i in hints then hints[i]
    else if FreeSlots(hints, i) < |typed| then typed[FreeSlots(hints, i)]
    else ' '
  }

  /** Letters of `w[..k]` at positions no hint fills, in order. */
  function Unhinted(w: string, hints: map<int, char>, k: nat): string
    requires k <= |w|
  {
    if k == 0 then [] else Unhinted(w, hints, k - 1) + (if k - 1 in hints then [] else [w[k - 1]])
  }

  /**
   * The assembled word keeps every hint in place and, read at the other
   * positions, is exactly the first typed letters in typing order: none is
   * dropped, repeated or reordered, and surplus ones are ignored.
   */
  lemma AssembleKeepsHintsAndOrder(hints: map<int, char>, typed: string, wordLength: nat)
    requires Assemble(hints, typed, wordLength).Some?
    ensures var w := Assemble(hints, typed, wordLength).value;
            && |w| == wordLength
            && (forall i :: 0 <= i < wordLength && i in hints ==> w[i] == hints[i])
            && Unhinted(w, hints, wordLength) == typed[..FreeSlots(hints, wordLength)]
  {
    var w := Assemble(hints, typed, wordLength).value;
    UnhintedPrefix(hints, typed, w, wordLength, wordLength);
  }

  /** Read at the unhinted positions below k, a word of slot letters is the first typed letters. */
  lemma {:induction false} UnhintedPrefix(hints: map<int, char>, typed: string, w: string, n: nat, k: nat)
    requires |w| == n && FreeSlots(hints, n) <= |typed| && k <= n
    requires forall i :: 0 <= i < n ==> w[i] == SlotLetter(hints, typed, i)
    ensures FreeSlots(hints, k) <= |typed|
    ensures Unhinted(w, hints, k) == typed[..FreeSlots(hints, k)]
  {
    FreeSlotsUpTo(hints, k, n);
    if k > 0 {
      UnhintedPrefix(hints, typed, w, n, k - 1);
      if k - 1 !in hints {
        FreeSlotsStrict(hints, k - 1, n);
        assert typed[..FreeSlots(hints, k)] == typed[..FreeSlots(hints, k - 1)] + [typed[FreeSlots(hints, k - 1)]];
      }
    }
  }

  lemma {:induction false} FreeSlotsUpTo(hints: map<int, char>, k: nat, n: nat)
    requires k <= n
    ensures FreeSlots(hints, k) <= FreeSlots(hints, n)
  {
    if k < n {
      FreeSlotsUpTo(hints, k, n - 1);
    }
  }

  /** Without hints the submitted word is the typed buffer, once it holds a whole word. */
  lemma {:induction false} AssembleWithoutHints(typed: string, wordLength: nat)
    ensures FreeSlots(map[], wordLength) == wordLength
    ensures Assemble(map[], typed, wordLength) == if |typed| < wordLength then None else Some(typed[..wordLength])
  {
    if wordLength > 0 {
      AssembleWithoutHints(typed, wordLength - 1);
    }
    if |typed| >= wordLength {
      var w := Assemble(map[], typed, wordLength).value;
      forall i | 0 <= i < wordLength ensures w[i] == typed[i] {
        FreeSlotsNoHints(i);
      }
      assert w == typed[..wordLength];
    }
  }

  lemma {:induction false} FreeSlotsNoHints(k: nat)
    ensures FreeSlots(map[], k) == k
  {
    if k > 0 {
      FreeSlotsNoHints(k - 1);
    }
  }

  /**
   * The assembly loop: walks the positions with a pointer into the typed
   * buffer, copying a hint where there is one and the next typed letter
   * otherwise, and gives up when the buffer runs out.
   */
  method AssembleWord(hints: map<int, char>, typed: string, wordLength: nat) returns (word: Option<string>)
    ensures word == Assemble(hints, typed, wordLength)
  {
    var chars := new char[wordLength];
    var pointer := 0;
    for i := 0 to wordLength
      invariant pointer == FreeSlots(hints, i) && pointer <= |typed|
      invariant forall j :: 0 <= j < i ==> chars[j] == SlotLetter(hints, typed, j)
    {
      if i in hints {
        chars[i] := hints[i];
      } else if pointer < |typed| {
        chars[i] := typed[pointer];
        pointer := pointer + 1;
      } else {
        FreeSlotsUpTo(hints, i + 1, wordLength);
        return None;
      }
    }
    assert chars[..] == Assemble(hints, typed, wordLength).value;
    return Some(chars[..]);
  }

  // ----- Keyboard statuses -----

  /** A key takes the better of its known status and the new one; an unknown key takes the new one. */
  function MergeKey(keyStatuses: map<char, LetterStatus>, c: char, status: LetterStatus): map<char, LetterStatus>
  {
    keyStatuses[c := if c in keyStatuses then Higher(keyStatuses[c], status) else status]
  }

  /** The keyboard after merging in the letters of a word with their statuses, left to right. */
  function MergedKeyStatuses(keyStatuses: map<char, LetterStatus>, word: string, statuses: seq<LetterStatus>): map<char, LetterStatus>
    requires |word| == |statuses|
  {
    if word == [] then keyStatuses
    else
      var n := |word| - 1;
      MergeKey(MergedKeyStatuses(keyStatuses, word[..n], statuses[..n]), word[n], statuses[n])
  }

  /**
   * The merge loop as the handler writes it: a key is overwritten when it
   * is unknown, when the new status is CORRECT, or when it is not CORRECT
   * and the new status is not INCORRECT.
   */
  method MergeKeyStatuses(keyStatuses: map<char, LetterStatus>, word: string, statuses: seq<LetterStatus>)
    returns (merged: map<char, LetterStatus>)
    requires |word| == |statuses|
    ensures merged == MergedKeyStatuses(keyStatuses, word, statuses)
  {
    merged := keyStatuses;
    for i := 0 to |word|
      invariant merged == MergedKeyStatuses(keyStatuses, word[..i], statuses[..i])
    {
      var c := word[i];
      var newStatus := statuses[i];
      if c !in merged || newStatus == Correct || (merged[c] != Correct && newStatus != Incorrect) {
        merged := merged[c := newStatus];
      }
      assert word[..i + 1][..i] == word[..i] && statuses[..i + 1][..i] == statuses[..i];
    }
    assert word[..|word|] == word && statuses[..|word|] == statuses;
  }

  /**
   * Key statuses only move up: a known key keeps its status or gets a
   * better one (so a CORRECT key stays CORRECT), every letter of the word
   * ends at least as good as each status it was scored with, and no other
   * key appears.
   */
  lemma {:induction false} KeyStatusesNeverDowngrade(keyStatuses: map<char, LetterStatus>, word: string, statuses: seq<LetterStatus>)
    requires |word| == |statuses|
    ensures var r := MergedKeyStatuses(keyStatuses, word, statuses);
            && (forall c :: c in r <==> c in keyStatuses || c in word)
            && (forall c :: c in keyStatuses ==> Rank(keyStatuses[c]) <= Rank(r[c]))
            && (forall c :: c in keyStatuses && keyStatuses[c] == Correct ==> r[c] == Correct)
            && (forall i :: 0 <= i < |word| ==> Rank(statuses[i]) <= Rank(r[word[i]]))
  {
    if word != [] {
      var n := |word| - 1;
      KeyStatusesNeverDowngrade(keyStatuses, word[..n], statuses[..n]);
      var r := MergedKeyStatuses(keyStatuses, word, statuses);
      var p := MergedKeyStatuses(keyStatuses, word[..n], statuses[..n]);
      forall c ensures c in r <==> c in keyStatuses || c in word {
        assert c in word <==> c in word[..n] || c == word[n] by {
          assert word == word[..n] + [word[n]];
        }
      }
      forall i | 0 <= i < |word| ensures Rank(statuses[i]) <= Rank(r[word[i]]) {
        if i < n {
          assert word[..n][i] == word[i] && statuses[..n][i] == statuses[i];
        }
      }
    }
  }

  /**
   * No key gets a status it was never given: each key ends with its old
   * status or with the status of some position of the word holding it.
   */
  lemma {:induction false} KeyStatusesAttained(keyStatuses: map<char, LetterStatus>, word: string, statuses: seq<LetterStatus>, c: char)
    requires |word| == |statuses|
    requires c in MergedKeyStatuses(keyStatuses, word, statuses)
    ensures var r := MergedKeyStatuses(keyStatuses, word, statuses);
            (c in keyStatuses && r[c] == keyStatuses[c])
            || exists i :: 0 <= i < |word| && word[i] == c && r[c] == statuses[i]
  {
    if word != [] {
      var n := |word| - 1;
      var p := MergedKeyStatuses(keyStatuses, word[..n], statuses[..n]);
      var r := MergedKeyStatuses(keyStatuses, word, statuses);
      if c == word[n] && (c !in p || r[c] != p[c]) {
        assert r[c] == statuses[n];
      } else {
        assert c in p && r[c] == p[c];
        KeyStatusesAttained(keyStatuses, word[..n], statuses[..n], c);
        if !(c in keyStatuses && p[c] == keyStatuses[c]) {
          var i :| 0 <= i < n && word[..n][i] == c && p[c] == statuses[..n][i];
          assert word[i] == c && r[c] == statuses[i];
        }
      }
    }
  }

  // ----- Accepting a valid guess -----

  /**
   * The screen state after a valid word is scored: the guess is appended
   * already revealed, the buffer and the hints are cleared, the keyboard is
   * merged, and the round ends WON on an all-CORRECT score or else LOST on
   * the last attempt.
   */
  function AfterValidGuess(s: GameUiState, word: string, statuses: seq<LetterStatus>): GameUiState
    requires |word| == |statuses|
  {
    var guesses := s.submittedGuesses + [Guess(word, statuses, true)];
    var isWin := AllCorrect(statuses);
    var isLoss := |guesses| >= MaxAttempts;
    s.(submittedGuesses := guesses,
       currentGuess := "",
       keyStatuses := MergedKeyStatuses(s.keyStatuses, Upper(word), statuses),
       revealedHints := map[],
       gameStatus := if isWin then Won else if isLoss then Lost else s.gameStatus)
  }

  /**
   * Outcome of scoring a valid word during play: WON exactly when it
   * equals the secret up to accents (even on the last attempt), LOST
   * exactly when it does not and the attempts are used up.
   */
  lemma SubmissionOutcome(s: GameUiState, word: string, secret: string)
    requires s.gameStatus == Playing && |word| == |secret|
    ensures var st := Evaluate(Normalize(secret), Normalize(Upper(word)));
            var t := AfterValidGuess(s, word, st);
            && (t.gameStatus == Won <==> Normalize(Upper(word)) == Normalize(secret))
            && (t.gameStatus == Lost <==> Normalize(Upper(word)) != Normalize(secret) && |s.submittedGuesses| + 1 >= MaxAttempts)
            && (t.gameStatus == Playing <==> Normalize(Upper(word)) != Normalize(secret) && |s.submittedGuesses| + 1 < MaxAttempts)
  {
    AllCorrectIffEqual(Normalize(secret), Normalize(Upper(word)));
  }

  /**
   * Accepting a valid word adds exactly one guess, revealed, leaves the
   * earlier ones as they were, clears the buffer and the hints, and keeps
   * every other field.
   */
  lemma AfterValidGuessFrame(s: GameUiState, word: string, statuses: seq<LetterStatus>)
    requires |word| == |statuses|
    ensures var t := AfterValidGuess(s, word, statuses);
            && |t.submittedGuesses| == |s.submittedGuesses| + 1
            && t.submittedGuesses[..|s.submittedGuesses|] == s.submittedGuesses
            && t.submittedGuesses[|s.submittedGuesses|] == Guess(word, statuses, true)
            && t.currentGuess == "" && t.revealedHints == map[]
            && t.wordLength == s.wordLength && t.showHintDialog == s.showHintDialog
            && t.triggerShake == s.triggerShake
            && (forall c :: c in s.keyStatuses ==> c in t.keyStatuses && Rank(s.keyStatuses[c]) <= Rank(t.keyStatuses[c]))
  {
    KeyStatusesNeverDowngrade(s.keyStatuses, Upper(word), statuses);
  }

  // ----- The session invariant, stated over plain values -----

  /** Each board row is the logged guess, revealed and scored against the secret. */
  ghost predicate BoardMatchesLog(board: seq<Guess>, guesses: seq<string>, secret: string)
  {
    && |guesses| == |board|
    && forall k :: 0 <= k < |board| ==>
         && guesses[k] == Upper(board[k].word)
         && board[k].isRevealed
         && |board[k].word| == |secret|
         && board[k].statuses == Evaluate(Normalize(secret), Normalize(guesses[k]))
  }

  /**
   * The round status agrees with the board: at most six rows, fewer while
   * PLAYING, WON only on an all-CORRECT last row, LOST only on a sixth row
   * that is not all CORRECT.
   */
  ghost predicate OutcomeConsistent(board: seq<Guess>, status: GameStatus)
  {
    && |board| <= MaxAttempts
    && (status == Playing ==> |board| < MaxAttempts)
    && (status == Won ==> board != [] && AllCorrect(board[|board| - 1].statuses))
    && (status == Lost ==> |board| == MaxAttempts && !AllCorrect(board[|board| - 1].statuses))
  }

  /** Every revealed hint is the secret's letter at its position. */
  ghost predicate HintsFromSecret(hints: map<int, char>, secret: string)
  {
    forall i :: i in hints ==> 0 <= i < |secret| && hints[i] == secret[i]
  }

  /** Some logged guess already shows the secret's letter at position i. */
  ghost predicate KnownFromGuesses(guesses: seq<string>, secret: string, i: nat)
    requires i < |secret|
  {
    exists g :: g in guesses && GuessedAt(g, secret, i)
  }

  /** A position hinted in this round is still revealed or has since been guessed. */
  ghost predicate HintedStayKnown(hinted: set<int>, hints: map<int, char>, guesses: seq<string>, secret: string)
  {
    forall i :: i in hinted ==> 0 <= i < |secret| && (i in hints || KnownFromGuesses(guesses, secret, i))
  }

  ghost predicate SessionInvariant(s: GameUiState, wordLength: nat, hasWords: bool, secret: string,
                                   guesses: seq<string>, hinted: set<int>)
  {
    && s.wordLength == wordLength
    && |s.currentGuess| <= wordLength
    && (!hasWords ==> s.submittedGuesses == [])
    && (hasWords ==> |secret| == wordLength && IsUpper(secret))
    && BoardMatchesLog(s.submittedGuesses, guesses, secret)
    && OutcomeConsistent(s.submittedGuesses, s.gameStatus)
    && HintsFromSecret(s.revealedHints, secret)
    && HintedStayKnown(hinted, s.revealedHints, guesses, secret)
  }

  /** The word shows every revealed hint at its position. */
  predicate CarriesHints(word: string, hints: map<int, char>)
  {
    forall i :: 0 <= i < |word| && i in hints ==> word[i] == hints[i]
  }

  /**
   * Accepting a valid word during play keeps the invariant; in particular
   * every hinted position stays known, because the submitted word carries
   * each revealed hint at its position.
   */
  lemma SubmitKeepsInvariant(s: GameUiState, wordLength: nat, secret: string, guesses: seq<string>,
                             hinted: set<int>, word: string)
    requires SessionInvariant(s, wordLength, true, secret, guesses, hinted)
    requires s.gameStatus == Playing
    requires |word| == wordLength && CarriesHints(word, s.revealedHints)
    ensures SessionInvariant(AfterValidGuess(s, word, Evaluate(Normalize(secret), Normalize(Upper(word)))),
                             wordLength, true, secret, guesses + [Upper(word)], hinted)
  {
    var statuses := Evaluate(Normalize(secret), Normalize(Upper(word)));
    BoardGrows(s.submittedGuesses, guesses, secret, word, statuses);
    HintedKnownAfterGuess(hinted, s.revealedHints, guesses, secret, word);
  }

  /** Logging a scored word and appending its revealed row keep board and log in step. */
  lemma BoardGrows(board: seq<Guess>, guesses: seq<string>, secret: string, word: string, statuses: seq<LetterStatus>)
    requires BoardMatchesLog(board, guesses, secret) && |word| == |secret|
    requires statuses == Evaluate(Normalize(secret), Normalize(Upper(word)))
    ensures BoardMatchesLog(board + [Guess(word, statuses, true)], guesses + [Upper(word)], secret)
  {
    var board' := board + [Guess(word, statuses, true)];
    var guesses' := guesses + [Upper(word)];
    forall k | 0 <= k < |board'|
      ensures guesses'[k] == Upper(board'[k].word)
      ensures board'[k].isRevealed && |board'[k].word| == |secret|
      ensures board'[k].statuses == Evaluate(Normalize(secret), Normalize(guesses'[k]))
    {
      if k < |board| {
        assert board'[k] == board[k] && guesses'[k] == guesses[k];
      } else {
        assert board'[k] == Guess(word, statuses, true) && guesses'[k] == Upper(word);
      }
    }
  }

  /**
   * A word that carries every revealed hint shows each hinted letter at
   * its position, so once it is logged, every position hinted in the
   * round is known from the log even though the hints are cleared.
   */
  lemma HintedKnownAfterGuess(hinted: set<int>, hints: map<int, char>, guesses: seq<string>, secret: string,
                              word: string)
    requires HintedStayKnown(hinted, hints, guesses, secret) && HintsFromSecret(hints, secret)
    requires |word| == |secret| && CarriesHints(word, hints) && IsUpper(secret)
    ensures HintedStayKnown(hinted, map[], guesses + [Upper(word)], secret)
  {
    var guesses' := guesses + [Upper(word)];
    forall i | i in hinted
      ensures 0 <= i < |secret| && KnownFromGuesses(guesses', secret, i)
    {
      if i in hints {
        assert Normalize(Upper(word))[i] == NormalizeChar(UpperChar(word[i]));
        assert GuessedAt(Upper(word), secret, i);
        assert Upper(word) in guesses';
      } else {
        var g :| g in guesses && GuessedAt(g, secret, i);
        assert g in guesses';
      }
    }
  }

  /** Revealing a position of the secret keeps the invariant. */
  lemma HintKeepsInvariant(s: GameUiState, wordLength: nat, hasWords: bool, secret: string, guesses: seq<string>,
                           hinted: set<int>, i: nat)
    requires SessionInvariant(s, wordLength, hasWords, secret, guesses, hinted)
    requires i < |secret|
    ensures SessionInvariant(s.(revealedHints := s.revealedHints[i := secret[i]], showHintDialog := false,
                                currentGuess := "", keyStatuses := s.keyStatuses[secret[i] := Correct]),
                             wordLength, hasWords, secret, guesses, hinted + {i})
  {
  }

  /** A position that can be hinted now was never hinted before in this round. */
  lemma CandidateNeverHinted(hinted: set<int>, hints: map<int, char>, guesses: seq<string>, secret: string, i: nat)
    requires HintedStayKnown(hinted, hints, guesses, secret)
    requires i < |secret| && i !in hints
    requires forall g :: g in guesses ==> !GuessedAt(g, secret, i)
    ensures i !in hinted
  {
  }

  /**
   * The screen update for a scored, accepted word: the row is appended and
   * revealed, the buffer and hints are cleared, the keyboard colours are
   * merged, and the round is WON on an all-CORRECT row or LOST once the
   * attempts are used up.
   */
  method ApplyValidGuess(s: GameUiState, guess: string, statuses: seq<LetterStatus>) returns (next: GameUiState)
    requires |guess| == |statuses|
    ensures next == AfterValidGuess(s, guess, statuses)
  {
    var newKeyStatuses := MergeKeyStatuses(s.keyStatuses, Upper(guess), statuses);
    var newSubmittedGuesses := s.submittedGuesses + [Guess(guess, statuses, false)];
    var isWin := forall i :: 0 <= i < |statuses| ==> statuses[i] == Correct;
    var isLoss := |newSubmittedGuesses| >= MaxAttempts;
    var finalSubmittedGuesses := newSubmittedGuesses[|newSubmittedGuesses| - 1 := Guess(guess, statuses, true)];
    assert finalSubmittedGuesses == s.submittedGuesses + [Guess(guess, statuses, true)];
    next := s.(
      submittedGuesses := finalSubmittedGuesses,
      currentGuess := "",
      keyStatuses := newKeyStatuses,
      revealedHints := map[]);
    if isWin || isLoss {
      next := next.(gameStatus := if isWin then Won else Lost);
    }
  }

  // ----- The session -----

  class GameViewModel {
    const logic: GameLogic
    var uiState: GameUiState
    /** Positions hinted since the round began. */
    ghost var hintedThisRound: set<int>

    ghost predicate Valid()
      reads this, logic
    {
      && logic.Valid()
      && SessionInvariant(uiState, logic.wordLength, logic.wordList != [], logic.secretWord, logic.guesses, hintedThisRound)
    }

    /** A session over a freshly built engine. */
    constructor (logic: GameLogic)
      requires logic.Valid() && logic.guesses == []
      ensures Valid()
      ensures this.logic == logic && uiState == InitialState(logic.wordLength)
    {
      this.logic := logic;
      uiState := InitialState(logic.wordLength);
      hintedThisRound := {};
    }

    /**
     * The new state after a submission from screen state `s` with guess
     * log `guesses`: unchanged when the typed letters do not fill the word,
     * a shake when the word is not in the dictionary, and otherwise the
     * guess logged and scored.
     */
    ghost predicate SubmittedFrom(s: GameUiState, guesses: seq<string>)
      reads this, logic
      requires logic.Valid()
    {
      var a := Assemble(s.revealedHints, s.currentGuess, s.wordLength);
      if a.None? then
        uiState == s && logic.guesses == guesses
      else if !logic.IsValidWord(a.value) then
        uiState == s.(triggerShake := s.triggerShake + 1) && logic.guesses == guesses
      else
        && |a.value| == |logic.secretWord|
        && logic.guesses == guesses + [Upper(a.value)]
        && uiState == AfterValidGuess(s, a.value, Evaluate(Normalize(logic.secretWord), Normalize(Upper(a.value))))
    }

    /** ENTER: assemble the word, then shake or score it. */
    method SubmitGuess()
      requires Valid() && uiState.gameStatus == Playing
      modifies this, logic
      ensures Valid()
      ensures SubmittedFrom(old(uiState), old(logic.guesses))
      ensures logic.secretWord == old(logic.secretWord)
      ensures hintedThisRound == old(hintedThisRound)
    {
      var assembled := AssembleWord(uiState.revealedHints, uiState.currentGuess, logic.wordLength);
      if assembled.None? {
        return;
      }
      var guess := assembled.value;
      if logic.IsValidWord(guess) {
        AssembleKeepsHintsAndOrder(uiState.revealedHints, uiState.currentGuess, logic.wordLength);
        AcceptGuess(guess);
      } else {
        uiState := uiState.(triggerShake := uiState.triggerShake + 1);
      }
    }

    /** The accepted-word path of ENTER: score and log the word, then update board, keyboard and status. */
    method AcceptGuess(guess: string)
      requires Valid() && uiState.gameStatus == Playing
      requires |guess| == logic.wordLength && CarriesHints(guess, uiState.revealedHints)
      requires logic.IsValidWord(guess)
      modifies this, logic
      ensures Valid()
      ensures |guess| == |logic.secretWord|
      ensures logic.guesses == old(logic.guesses) + [Upper(guess)]
      ensures uiState == AfterValidGuess(old(uiState), guess, Evaluate(Normalize(logic.secretWord), Normalize(Upper(guess))))
      ensures logic.secretWord == old(logic.secretWord)
      ensures hintedThisRound == old(hintedThisRound)
    {
      var s := uiState;
      ghost var secret, guesses := logic.secretWord, logic.guesses;
      SubmitKeepsInvariant(s, logic.wordLength, secret, guesses, hintedThisRound, guess);
      var statuses := logic.SubmitGuess(guess);
      var next := ApplyValidGuess(s, guess, statuses);
      uiState := next;
      assert SessionInvariant(uiState, logic.wordLength, true, secret, guesses + [Upper(guess)], hintedThisRound);
    }

    /**
     * A key press. Outside PLAYING nothing changes; ENTER submits, DELETE
     * drops the last typed letter if there is one, and a letter is appended
     * while the buffer is shorter than the word.
     */
    method OnKey(key: string)
      requires Valid()
      requires key == "ENTER" || key == "DELETE" || |key| == 1
      modifies this, logic
      ensures Valid()
      ensures logic.secretWord == old(logic.secretWord) && hintedThisRound == old(hintedThisRound)
      ensures old(uiState.gameStatus) != Playing ==> uiState == old(uiState) && logic.guesses == old(logic.guesses)
      ensures old(uiState.gameStatus) == Playing && key == "ENTER" ==> SubmittedFrom(old(uiState), old(logic.guesses))
      ensures old(uiState.gameStatus) == Playing && key == "DELETE" ==>
                && logic.guesses == old(logic.guesses)
                && uiState == old(uiState).(currentGuess :=
                     if old(uiState.currentGuess) == [] then []
                     else old(uiState.currentGuess)[..|old(uiState.currentGuess)| - 1])
      ensures old(uiState.gameStatus) == Playing && key != "ENTER" && key != "DELETE" ==>
                && logic.guesses == old(logic.guesses)
                && uiState == old(uiState).(currentGuess :=
                     if |old(uiState.currentGuess)| < logic.wordLength then old(uiState.currentGuess) + key
                     else old(uiState.currentGuess))
    {
      if uiState.gameStatus != Playing {
        return;
      }
      if key == "ENTER" {
        SubmitGuess();
      } else if key == "DELETE" {
        if |uiState.currentGuess| > 0 {
          uiState := uiState.(currentGuess := uiState.currentGuess[..|uiState.currentGuess| - 1]);
        }
      } else {
        if |uiState.currentGuess| < logic.wordLength {
          uiState := uiState.(currentGuess := uiState.currentGuess + key);
        }
      }
    }

    /** Starts a new round: new secret, empty board, buffer, keyboard and hints; word length kept. */
    method ResetGame()
      requires Valid()
      modifies this, logic
      ensures Valid()
      ensures uiState == old(uiState).(submittedGuesses := [], currentGuess := "", keyStatuses := map[],
                                       gameStatus := Playing, revealedHints := map[])
      ensures logic.guesses == []
      ensures logic.wordList != [] ==> logic.secretWord in logic.wordList
      ensures logic.wordList == [] ==> logic.secretWord == old(logic.secretWord)
      ensures hintedThisRound == {}
    {
      logic.StartNewGame();
      uiState := uiState.(submittedGuesses := [], currentGuess := "", keyStatuses := map[],
                          gameStatus := Playing, revealedHints := map[]);
      hintedThisRound := {};
    }

    /** Opens the hint dialog. */
    method OnHintPressed()
      requires Valid()
      modifies this
      ensures Valid()
      ensures uiState == old(uiState).(showHintDialog := true) && hintedThisRound == old(hintedThisRound)
    {
      uiState := uiState.(showHintDialog := true);
    }

    /** Closes the hint dialog without a hint. */
    method OnHintDismiss()
      requires Valid()
      modifies this
      ensures Valid()
      ensures uiState == old(uiState).(showHintDialog := false) && hintedThisRound == old(hintedThisRound)
    {
      uiState := uiState.(showHintDialog := false);
    }

    /** Resets the shake counter once the animation has played. */
    method OnShakeAnimationCompleted()
      requires Valid()
      modifies this
      ensures Valid()
      ensures uiState == old(uiState).(triggerShake := 0) && hintedThisRound == old(hintedThisRound)
    {
      uiState := uiState.(triggerShake := 0);
    }

    /**
     * Accepts a hint: when some position can be hinted, one of them is
     * revealed with the secret's letter, that key becomes CORRECT and the
     * buffer is cleared; the position was never hinted before in this
     * round. Either way the dialog closes.
     */
    method OnHintConfirm()
      requires Valid()
      modifies this
      ensures Valid()
      ensures logic.NoHintCandidate(old(uiState.currentGuess), old(uiState.revealedHints)) ==>
                uiState == old(uiState).(showHintDialog := false) && hintedThisRound == old(hintedThisRound)
      ensures !logic.NoHintCandidate(old(uiState.currentGuess), old(uiState.revealedHints)) ==>
                exists i :: 0 <= i < |logic.secretWord|
                  && logic.IsHintCandidate(old(uiState.currentGuess), old(uiState.revealedHints), i)
                  && i !in old(hintedThisRound)
                  && hintedThisRound == old(hintedThisRound) + {i}
                  && uiState == old(uiState).(
                       revealedHints := old(uiState.revealedHints)[i := logic.secretWord[i]],
                       showHintDialog := false,
                       currentGuess := "",
                       keyStatuses := old(uiState.keyStatuses)[logic.secretWord[i] := Correct])
    {
      var hint := logic.GetHint(uiState.currentGuess, uiState.revealedHints);
      if hint.Some? {
        var (index, letter) := hint.value;
        CandidateNeverHinted(hintedThisRound, uiState.revealedHints, logic.guesses, logic.secretWord, index);
        HintKeepsInvariant(uiState, logic.wordLength, logic.wordList != [], logic.secretWord, logic.guesses,
                           hintedThisRound, index);
        var newHints := uiState.revealedHints[index := letter];
        var newKeyStatuses := uiState.keyStatuses[letter := Correct];
        hintedThisRound := hintedThisRound + {index};
        uiState := uiState.(revealedHints := newHints, showHintDialog := false, currentGuess := "",
                            keyStatuses := newKeyStatuses);
      } else {
        uiState := uiState.(showHintDialog := false);
      }
    }
  }
}
