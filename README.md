# Palabro game core in Dafny

Palabro is a Spanish Wordle-style game. The player has six attempts to find a
secret word of five, six or seven letters. Every attempt is scored letter by
letter as CORRECT, WRONG_POSITION or INCORRECT. Accents on the five upper-case
vowels are ignored, both when scoring and when checking the dictionary. During a
round the player may ask for a hint, which reveals one letter of the secret
that is not yet known.

This project models the core of the game and proves properties of the model:

- `GameState.dfy` holds the records and enumerations shared by the game: letter
  status, game status, a submitted guess, and the rank order
  INCORRECT < WRONG_POSITION < CORRECT that the keyboard colouring uses.
- `StringUtils.dfy` holds the accent normalisation of characters and strings.
- `Uppercase.dfy` holds the part of upper-casing that the game relies on: ASCII
  letters and the Spanish letters á é í ó ú ñ ü.
- `Evaluation.dfy` is a reference definition of scoring. It is stated position by
  position, as "the k-th misplaced copy of a letter is WRONG_POSITION while
  unmatched copies remain". It also proves the duplicate-letter rule and the
  other scoring properties.
- `GameLogic.dfy` holds the engine of one word length, as the class
  `GameLogic`. This class has the word list, the secret word and the guess log.
  - Its scorer keeps the two passes of the original over a status array and a
    letter-count map, and is proved equal to the reference definition.
  - It also has the dictionary check, the start of a new round, and hint
    selection.
- `ViewModel.dfy` holds the session, as the class `GameViewModel`. It rewrites a
  `GameUiState` record on each event: key presses, submission, hints, reset and
  the end of the shake animation.
  - Word assembly (hints plus typed letters) is a loop proved against a
    definition.
  - The keyboard-status merge is also a loop proved against a definition.
  - A session invariant ties the board to the engine's log and to the secret,
    and every handler preserves it.

A random choice (the secret word and the hinted position) is modelled as an
unspecified choice from the fully specified set of allowed values.

Repeated letters are scored as in this example. With secret CASAS, the guess
SALSA scores WRONG_POSITION, CORRECT, INCORRECT, WRONG_POSITION, WRONG_POSITION.
The exact match at position 1 uses one of the secret's two A's. The other A, at
position 3, is still unmatched, so the guess's last A is WRONG_POSITION
(`Evaluation.ScoringExampleCasas`).

## Model

| member | source | states |
|---|---|---|
| GameState.Higher | app/src/main/java/com/example/palabro/GameViewModel.kt:75 | the better of two statuses is one of them and ranks at least as high as both |
| StringUtils.NormalizeChar | app/src/main/java/com/example/palabro/StringUtils.kt:6-15 | Á É Í Ó Ú become A E I O U, every other character is unchanged, and no result is an accented upper-case vowel |
| StringUtils.Normalize | app/src/main/java/com/example/palabro/StringUtils.kt:20-22 | the normalised string has the same length and is the character normalisation at every index |
| StringUtils.NormalizeKeepsOthers | app/src/main/java/com/example/palabro/StringUtils.kt:13 | lower-case accented vowels, Ñ and Ü are left as they are |
| StringUtils.NormalizeCharIdempotent | app/src/main/java/com/example/palabro/StringUtils.kt:6-15 | normalising a character twice gives the same result as normalising it once |
| StringUtils.NormalizeIdempotent | app/src/main/java/com/example/palabro/StringUtils.kt:20-22 | normalising a string twice gives the same result as normalising it once |
| StringUtils.NormalizeHasNoAccentedVowel | app/src/main/java/com/example/palabro/StringUtils.kt:6-22 | a normalised string contains none of the five accented upper-case vowels |
| StringUtils.NormalizeAppend | app/src/main/java/com/example/palabro/StringUtils.kt:21 | normalisation distributes over concatenation |
| StringUtils.NormalizeFixedPoint | app/src/main/java/com/example/palabro/StringUtils.kt:20-22 | a string is left unchanged exactly when it has no accented upper-case vowel |
| Uppercase.UpperChar | app/src/main/java/com/example/palabro/GameLogic.kt:58 | a-z move 32 code points down to A-Z; any character that is neither a-z nor one of á é í ó ú ñ ü is kept |
| Uppercase.Upper | app/src/main/java/com/example/palabro/GameLogic.kt:58 | upper-casing keeps the length and works character by character |
| Uppercase.UpperCharIdempotent | app/src/main/java/com/example/palabro/GameLogic.kt:58 | upper-casing a character twice gives the same result as doing it once |
| Uppercase.UpperIsUpper | app/src/main/java/com/example/palabro/GameLogic.kt:34 | an upper-cased word is upper case, and upper-casing it again changes nothing |
| Uppercase.UpperOfUpper | app/src/main/java/com/example/palabro/GameLogic.kt:42 | upper-casing an upper-case word leaves it unchanged |
| Evaluation.ExactWithinSecret | app/src/main/java/com/example/palabro/GameLogic.kt:66-74 | exact matches of a letter never outnumber its copies in the secret; if they are fewer, some copy sits at a position the guess missed |
| Evaluation.UnmatchedNonNegative | app/src/main/java/com/example/palabro/GameLogic.kt:66-74 | the letter counts left after the first pass are never negative |
| Evaluation.GuessCountSplit | app/src/main/java/com/example/palabro/GameLogic.kt:69-84 | each occurrence of a letter in the guess is either an exact match or a misplaced one |
| Evaluation.EvaluateCorrectIffMatch | app/src/main/java/com/example/palabro/GameLogic.kt:65-74 | there is one status per letter, and it is CORRECT exactly where the guess matches the secret |
| Evaluation.AllCorrectIffEqual | app/src/main/java/com/example/palabro/GameLogic.kt:69-74 | all statuses are CORRECT exactly when the guess equals the secret |
| Evaluation.WrongPositionWitness | app/src/main/java/com/example/palabro/GameLogic.kt:78-81 | WRONG_POSITION goes only to a non-matching letter that occurs in the secret at a position the guess did not match |
| Evaluation.MarkedLetters | app/src/main/java/com/example/palabro/GameLogic.kt:66-84 | for every letter, the positions holding it that are not INCORRECT are exactly as many as the smaller of its counts in guess and secret, so never more than the secret has |
| Evaluation.DistinctLettersWrongPosition | app/src/main/java/com/example/palabro/GameLogic.kt:77-84 | when neither word repeats a letter, a non-matching letter is WRONG_POSITION exactly when it occurs in the secret |
| Evaluation.ScoringExampleCasas | app/src/main/java/com/example/palabro/GameLogic.kt:57-86 | CASAS against SALSA scores WRONG_POSITION, CORRECT, INCORRECT, WRONG_POSITION, WRONG_POSITION |
| Evaluation.ScoringExampleRobot | app/src/main/java/com/example/palabro/GameLogic.kt:57-86 | ROBOT against MOONS scores INCORRECT, CORRECT, WRONG_POSITION, INCORRECT, INCORRECT: the two O's of the guess get the secret's two O's |
| Logic.LetterCounts | app/src/main/java/com/example/palabro/GameLogic.kt:66 | the histogram maps each letter to its number of occurrences, and holds only positive counts |
| Logic.Score | app/src/main/java/com/example/palabro/GameLogic.kt:65-85 | the two-pass scorer returns exactly the reference scoring of the normalised words |
| Logic.MarkExact | app/src/main/java/com/example/palabro/GameLogic.kt:68-74 | the first pass marks exactly the matching positions CORRECT; afterwards each count is the letter's copies not matched exactly, never negative |
| Logic.MarkMisplaced | app/src/main/java/com/example/palabro/GameLogic.kt:76-84 | the second pass turns the status array into the reference scoring |
| Logic.ExactMonotone | app/src/main/java/com/example/palabro/GameLogic.kt:69-74 | exact matches only accumulate as the first pass advances |
| Logic.ExactPassStep | app/src/main/java/com/example/palabro/GameLogic.kt:70-73 | one step of the first pass keeps every count equal to the copies not yet matched exactly, and never negative |
| Logic.MisplacedPassStep | app/src/main/java/com/example/palabro/GameLogic.kt:78-82 | one step of the second pass gives the reference status, and keeps every count equal to the unmatched copies not yet handed out |
| Logic.ScoredStep | app/src/main/java/com/example/palabro/GameLogic.kt:78-82 | setting the reference status at the next position extends the scored prefix |
| Logic.ScoredAll | app/src/main/java/com/example/palabro/GameLogic.kt:85 | a fully scored status list is the reference scoring |
| Logic.UpperAll | app/src/main/java/com/example/palabro/GameLogic.kt:34 | the loaded list is the lines upper-cased, in order, and every word in it is upper case |
| Logic.GameLogic.constructor | app/src/main/java/com/example/palabro/GameLogic.kt:20-37 | the engine holds the upper-cased lines and their normalised set, starts with an empty guess log, and sets a secret from the list when the list is not empty |
| Logic.GameLogic.IsValidWord | app/src/main/java/com/example/palabro/GameLogic.kt:40-46 | a word is accepted exactly when its upper-cased, normalised form equals the normalised form of some dictionary word |
| Logic.GameLogic.WordListAccepted | app/src/main/java/com/example/palabro/GameLogic.kt:34-43 | every dictionary word is accepted as a guess |
| Logic.GameLogic.StartNewGame | app/src/main/java/com/example/palabro/GameLogic.kt:48-54 | with a non-empty list the secret becomes some word of the list and the log is cleared; with an empty list nothing changes |
| Logic.GameLogic.SubmitGuess | app/src/main/java/com/example/palabro/GameLogic.kt:57-86 | exactly the upper-cased guess is appended to the log, the secret is unchanged, and the result has wordLength statuses equal to the reference scoring of the normalised words |
| Logic.GameLogic.GetHint | app/src/main/java/com/example/palabro/GameLogic.kt:90-108 | there is no hint exactly when no position qualifies; a hint is an in-range position, not already revealed, paired with the secret's letter there, such that no logged guess has the secret's letter at that position and the typed buffer does not have it at the same index; the buffer is compared at its own index, as in the original, and once hints are revealed that index can differ from the word position the typed letter will fill |
| ViewModel.FreeSlotsStrict | app/src/main/java/com/example/palabro/GameViewModel.kt:56-64 | an unhinted position consumes a typed letter that comes before the last one needed |
| ViewModel.FreeSlotsUpTo | app/src/main/java/com/example/palabro/GameViewModel.kt:56-64 | the number of typed letters consumed only grows along the word |
| ViewModel.FreeSlotsNoHints | app/src/main/java/com/example/palabro/GameViewModel.kt:56-64 | without hints, every position consumes a typed letter |
| ViewModel.AssembleWord | app/src/main/java/com/example/palabro/GameViewModel.kt:54-66 | the assembly loop gives up exactly when the typed letters run out, and otherwise builds the word that the definition describes |
| ViewModel.AssembleKeepsHintsAndOrder | app/src/main/java/com/example/palabro/GameViewModel.kt:54-66 | the assembled word has wordLength letters and holds every hint in place; read at the other positions, it is exactly the first typed letters in order, with the surplus ignored |
| ViewModel.UnhintedPrefix | app/src/main/java/com/example/palabro/GameViewModel.kt:56-64 | up to any position, the unhinted letters of the word are the typed letters consumed so far |
| ViewModel.AssembleWithoutHints | app/src/main/java/com/example/palabro/GameViewModel.kt:54-66 | without hints, the submitted word is the first wordLength typed letters, or nothing if fewer were typed |
| ViewModel.MergeKeyStatuses | app/src/main/java/com/example/palabro/GameViewModel.kt:71-78 | the keyboard loop, with its literal overwrite condition, gives the left-to-right merge that keeps the better status |
| ViewModel.KeyStatusesNeverDowngrade | app/src/main/java/com/example/palabro/GameViewModel.kt:71-78 | key statuses never go down, a CORRECT key stays CORRECT, each letter ends at least as good as every status it was scored with, and only the word's letters are added |
| ViewModel.KeyStatusesAttained | app/src/main/java/com/example/palabro/GameViewModel.kt:71-78 | each key ends with its old status or with the status of some position that holds it |
| ViewModel.SubmissionOutcome | app/src/main/java/com/example/palabro/GameViewModel.kt:82-83 | the round is WON exactly when the guess equals the secret up to accents, even on the sixth attempt; it is LOST exactly when it does not and six guesses are used; otherwise it stays PLAYING |
| ViewModel.AfterValidGuessFrame | app/src/main/java/com/example/palabro/GameViewModel.kt:70-97 | a valid guess adds exactly one revealed row and leaves earlier rows untouched; buffer and hints are cleared; word length, dialog and shake are kept; no key is downgraded |
| ViewModel.ApplyValidGuess | app/src/main/java/com/example/palabro/GameViewModel.kt:70-119 | the screen update for an accepted word is the state the definition of an accepted submission describes |
| ViewModel.SubmitKeepsInvariant | app/src/main/java/com/example/palabro/GameViewModel.kt:68-97 | accepting a word during play keeps the session invariant: board and log agree, the outcome is consistent, and hinted positions stay known |
| ViewModel.BoardGrows | app/src/main/java/com/example/palabro/GameViewModel.kt:69-92 | the new row and the new log entry are the same guess, scored against the secret |
| ViewModel.HintedKnownAfterGuess | app/src/main/java/com/example/palabro/GameViewModel.kt:57-58 | a submitted word carries every revealed hint, so each hinted position is known from the log once the hints are cleared |
| ViewModel.HintKeepsInvariant | app/src/main/java/com/example/palabro/GameViewModel.kt:156-173 | revealing the secret's letter at a position keeps the session invariant |
| ViewModel.CandidateNeverHinted | app/src/main/java/com/example/palabro/GameLogic.kt:91-99 | a position that can be hinted now was not hinted earlier in the round, so no position is hinted twice |
| ViewModel.GameViewModel.constructor | app/src/main/java/com/example/palabro/GameViewModel.kt:27-33 | a session over a fresh engine starts from the default screen state with the engine's word length |
| ViewModel.GameViewModel.SubmitGuess | app/src/main/java/com/example/palabro/GameViewModel.kt:53-126 | with too few typed letters nothing changes; an unknown word only increments the shake counter; a known word is logged and scored and the screen becomes the accepted-submission state |
| ViewModel.GameViewModel.AcceptGuess | app/src/main/java/com/example/palabro/GameViewModel.kt:68-121 | the engine logs the upper-cased word and the screen becomes the accepted-submission state for its scoring |
| ViewModel.GameViewModel.OnKey | app/src/main/java/com/example/palabro/GameViewModel.kt:35-51 | outside PLAYING nothing changes; ENTER submits; DELETE drops exactly the last typed letter, or does nothing on an empty buffer; a letter is appended only while the buffer is shorter than the word, so the buffer never exceeds the word length |
| ViewModel.GameViewModel.ResetGame | app/src/main/java/com/example/palabro/GameViewModel.kt:128-137 | board, buffer, keyboard and hints are emptied and the status is PLAYING; word length, dialog and shake are kept; the engine picks a new secret |
| ViewModel.GameViewModel.OnHintPressed | app/src/main/java/com/example/palabro/GameViewModel.kt:147-149 | only the hint dialog is opened |
| ViewModel.GameViewModel.OnHintDismiss | app/src/main/java/com/example/palabro/GameViewModel.kt:179-181 | only the hint dialog is closed |
| ViewModel.GameViewModel.OnShakeAnimationCompleted | app/src/main/java/com/example/palabro/GameViewModel.kt:183-185 | only the shake counter is reset to zero |
| ViewModel.GameViewModel.OnHintConfirm | app/src/main/java/com/example/palabro/GameViewModel.kt:153-177 | with no qualifying position, only the dialog closes; otherwise one qualifying, never-hinted position is revealed with the secret's letter, that key becomes CORRECT, the buffer is cleared and the dialog closes |

## Left out

- The screens, navigation, theme, statistics and settings are not part of this model. Nor is the older keyboard merge in the activity. Only the session logic is modelled.
- Persisting wins and losses is left out, because it is an external write to storage. The delay before WON or LOST is shown is also left out. The status change is modelled as immediate. The original keeps PLAYING for the length of the flip animation, and input arriving in that window is not modelled.
- The asynchronous start of the session and `changeWordLength` are left out. Both rebuild the engine from a settings store. Instead, the session's constructor takes an engine that is already built. The observable state flow is modelled as a plain field.
- The debug logging in the dictionary check and in the start of a round is left out.
- Logic.GameLogic.constructor: takes the lines of the word-list resource rather than reading it. It requires every line to have wordLength characters. For word lengths other than 5, 6 and 7, the original falls back to the five-letter list, and that fallback is not modelled.
- Uppercase.UpperChar: only ASCII letters and á é í ó ú ñ ü are mapped. The platform's full Unicode upper-casing, including the mappings that change length, is not modelled.
- ViewModel.GameViewModel.OnKey: requires the key to be ENTER, DELETE or a single character. That is what the on-screen keyboard sends. A longer string would be appended whole by the original.
- `Guess.statuses` is nullable in the original but is never null in this core. It is modelled as a plain sequence.
- Logic.GameLogic.SubmitGuess: requires the guess and the secret to have wordLength characters. The session always submits such a word. With a shorter guess the original throws an index error, after the guess has been logged. A longer guess is scored on its first wordLength letters and logged whole. Neither case is modelled.
- Logic.GameLogic.StartNewGame and Logic.GameLogic.GetHint: the random generator is replaced by an unspecified choice from the allowed values. No claim is made about the distribution.
