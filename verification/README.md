# Code Buster game engine in Dafny

This project models the engine of Code Buster, a Mastermind-style game. The
player has `MAX_ATTEMPTS` (10) tries to find a secret of `CODE_LENGTH` (4)
distinct colours drawn from an eight-colour palette. After each guess the
engine scores it with one peg per position:

- `'black'` means the right colour in the right place;
- `'white'` means the right colour in another place;
- `'empty'` means neither.

The engine has three parts, each a module:

- `Colors` (`colors.dfy`) holds the palette `COLORS` and the constants `MAX_ATTEMPTS` and `CODE_LENGTH`.
- `SecretCode` (`secret_code.dfy`) holds `GenerateSecretCode`. It draws colours without replacement and splices each pick out of a working copy of the palette. The random choices arrive as a sequence of indices `picks`, and `ValidPicks` keeps each index below the size of the remaining pool. `Draw` is the functional description of the same draw. `DrawDistinct` proves that a draw yields distinct palette names, one per pick.
- `Feedback` (`feedback.dfy`) holds `CalculateFeedback`, the two-pass scorer over arrays:
  - the first pass marks exact matches black and clears them in copies of the guess and the secret;
  - the second pass uses `indexOf` to find each remaining guess colour among the secret slots still present, marks it white and clears that slot.

  The method is proved equal to `Score`, a specification that counts instead of consuming slots. Position `i` is black on an exact match. Otherwise it is white when fewer open positions of its colour come before it in the guess than the secret holds open positions of that colour. Otherwise it is empty. `Slots` describes the secret copy after each step of the second pass. Lemmas prove that `Score`:
  - is all black exactly when guess equals secret;
  - per colour, gives as many black and white pegs as the colour's exact matches plus the smaller of its open counts in guess and secret, which is at most the smaller of its counts in guess and secret;
  - scores a guess by presence alone when the guess has no repeats.
- `Game` (`game.dfy`) holds the class `Session`. Its four fields are `secretCode`, `currentGuess`, `guessHistory` and `gameStatus`. Each operation is a method that updates them and keeps `Valid()` true. `Valid()` ties the history to the secret and the status to the history.

## Model

| member | source | states |
|---|---|---|
| `Colors.PaletteNamesDistinct` | src/App.jsx:4-16 | The palette has eight entries, at least `CODE_LENGTH`, and no two share a name. |
| `SecretCode.DrawDistinct` | src/App.jsx:26-35 | Drawing without replacement from a pool with distinct names yields one name per pick. No name repeats and each is a name of the pool. |
| `SecretCode.Spliced` | src/App.jsx:32 | The pool with entry `k` removed, as `splice(k, 1)` leaves it: one entry shorter, entries before `k` kept, entries after `k` shifted down by one. |
| `SecretCode.SplicedDistinct` | src/App.jsx:32 | After `splice` removes one entry, the names left are still distinct. Each is a name of the old pool other than the one removed. |
| `SecretCode.GenerateSecretCode` | src/App.jsx:26-35 | The code equals `Draw(COLORS, picks)`. It has exactly `CODE_LENGTH` names, pairwise distinct, each the name of a `COLORS` entry. |
| `Feedback.IndexOf` | src/App.jsx:60 | Returns -1 exactly when `x` is absent. Otherwise it returns the first index holding `x`. |
| `Feedback.LiveInPrefix` | src/App.jsx:57-66 | During the second pass, a slot of colour `c` is left in the first `k` secret slots exactly when fewer open guess positions of `c` have been handled than the first `k` secret positions hold open. |
| `Feedback.ExactPassStep` | src/App.jsx:49-55 | One step of the first pass at position `i`. On an exact match the peg turns black and slot `i` is cleared in both copies. Otherwise the feedback and both copies are unchanged. |
| `Feedback.ExactPassDone` | src/App.jsx:49-58 | The secret copy and the feedback left by the first pass are the ones the second pass starts from. |
| `Feedback.SecondPassExact` | src/App.jsx:58-59 | A position cleared by the first pass is skipped by the second: the secret copy and the feedback are unchanged. |
| `Feedback.SecondPassMiss` | src/App.jsx:58-61 | When `indexOf` does not find an open position's colour in the secret copy, the specified peg is empty and neither the copy nor the feedback changes. |
| `Feedback.SecondPassHit` | src/App.jsx:58-64 | When `indexOf` finds an open position's colour at slot `k`, the specified peg is white. The copy for the next position is this one with slot `k` cleared, and the feedback gains exactly that white peg. |
| `Feedback.ExactPass` | src/App.jsx:49-55 | The first loop over the arrays leaves black pegs exactly at the exact matches and clears exactly those slots in both copies. |
| `Feedback.ColourPass` | src/App.jsx:57-66 | The second loop over the arrays, started from the first pass's result, leaves feedback equal to `Score(guess, secret)`. |
| `Feedback.CalculateFeedback` | src/App.jsx:43-69 | Returns `CODE_LENGTH` pegs equal to `Score(guess, secret)`. Peg `i` is black exactly when `guess[i] == secret[i]`. |
| `Feedback.WinIffEqual` | src/App.jsx:101 | Every peg of `Score(guess, secret)` is black exactly when the guess equals the secret element by element. |
| `Feedback.ScoredPrefix` | src/App.jsx:49-66 | Over the first `k` guess positions, colour `c` has a non-empty peg at its exact matches. It also has one at as many open positions as the smaller of its open count there and its open count in the whole secret. |
| `Feedback.MultiplicitySplit` | src/App.jsx:49-55 | In either code, a colour's multiplicity splits into its exact matches plus its open positions. |
| `Feedback.ColourConservation` | src/App.jsx:49-66 | Per colour, black plus white pegs at positions of that colour are its exact matches plus the smaller of its remaining multiplicities in guess and secret. This is never more than the smaller of its counts in guess and secret. |
| `Feedback.DistinctWhite` | src/App.jsx:57-66 | When the guess does not repeat a colour (the secret may), peg `i` is white exactly when `guess[i] != secret[i]` and `guess[i]` occurs in the secret. |
| `Feedback.BlackWhiteBound` | src/App.jsx:44-68 | Black plus white pegs number at most the guess length. |
| `Feedback.PegTotal` | src/App.jsx:44 | The black, white and empty pegs together number exactly the length of the feedback. |
| `Feedback.ScoreExamples` | src/App.jsx:43-69 | Against the secret red, green, blue, yellow: the secret scores four blacks, the rearrangement green, red, yellow, blue scores four whites, and white, pink, cyan, purple scores four empties. |
| `Game.StatusAfterGuess` | src/App.jsx:95-104 | Recording one more guess while the game is on keeps the status in agreement with the history. The status becomes won when the guess is the secret, lost when the history reaches `MAX_ATTEMPTS`, and stays playing otherwise. |
| `Game.Session.constructor` | src/App.jsx:19-22 | The session starts with a secret drawn by `picks`, an empty guess, an empty history and status `Playing`, and satisfies `Valid()`. |
| `Game.Session.AddColorToGuess` | src/App.jsx:72-78 | Appends `color` exactly when the guess has fewer than `CODE_LENGTH` colours, the status is `Playing` and the colour is absent. Otherwise the guess is unchanged. No other field changes. The guess keeps at most `CODE_LENGTH` colours and no repeats. |
| `Game.Session.RemoveLastColor` | src/App.jsx:81-85 | Drops exactly the last colour of a non-empty guess and keeps its prefix. An empty guess is left as it is. No other field changes. |
| `Game.Session.SubmitGuess` | src/App.jsx:88-107 | Does nothing unless the guess is full and the status is `Playing`, so a `Won` or `Lost` game stays as it is. Otherwise it does four things. It appends the guess with its `Score` to the history. It clears the guess. It sets `Won` when the guess equals the secret. Failing that, it sets `Lost` when the history has reached `MAX_ATTEMPTS` (`>=`). The history never exceeds `MAX_ATTEMPTS`. |
| `Game.Session.ResetGame` | src/App.jsx:110-115 | From any state, the session gets a fresh distinct secret drawn by `picks`, an empty guess, an empty history and status `Playing`, and satisfies `Valid()`. |

## Left out

- Rendering is not modelled: `ColorCircle`, `FeedbackPegs`, `getColor`, the board, the palette buttons and the end-of-game messages (src/App.jsx:117-348). The `bg` and `hover` style classes of each palette entry are kept only as data.
- The instructions modal state `showInstructions` is UI-only and is not modelled.
- `Math.random` is replaced by the `picks` parameter. Each index is what `Math.floor(Math.random() * availableColors.length)` would have produced, so it must lie below the current pool size. Uniformity of the draw is not modelled.
- React mechanics are not modelled. This covers `useState` and `useEffect`, and the first render, where `secretCode` is still `[]` until the effect runs. A session is constructed with its secret already drawn. Each `setX` call is a field assignment taking effect at once. The source computes its win and loss tests from the local `feedback` and `newHistory`, so deferring the assignments to the next render gives the same final state.
- `Feedback.CalculateFeedback` requires a guess and a secret of `CODE_LENGTH` colours. That is how the engine calls it. The source's loops always run `CODE_LENGTH` times, and their behaviour on shorter arrays (comparisons with `undefined`) is not modelled. The specification `Score` itself is stated for any pair of equal-length codes.
- `Game.Session.AddColorToGuess` takes any colour name, as the source does. The source does not check palette membership, so neither does the model, and `Valid()` does not claim guessed colours are palette colours.
- Palette, code length and attempt count are the source's fixed constants. They are not configuration parameters.
- Peg and status names follow the source (`'black'`/`'white'`/`'empty'` and `'playing'`/`'won'`/`'lost'`), as does its `>=` loss test. An `==` loss test would agree with `>=` under `Valid()`, because a game still `Playing` has fewer than `MAX_ATTEMPTS` guesses.
- Showing the secret once the game is over is presentation and is not modelled.
