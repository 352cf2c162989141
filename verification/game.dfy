/** The game session: the secret, the guess being built, the guesses made so
    far with their feedback, and whether the game is still on. */
module Game {
  import opened Colors
  import opened SecretCode
  import opened Feedback

  /** The game status: 'playing', 'won' or 'lost'. */
  datatype Status = Playing | Won | Lost

  /** One submitted guess, with the feedback it received. */
  datatype GuessRecord = GuessRecord(colors: seq<Color>, feedback: seq<Peg>)

  /** A valid secret: `CODE_LENGTH` distinct palette colours. */
  predicate IsSecret(code: seq<Color>) {
    |code| == CODE_LENGTH && Distinct(code) && forall i :: 0 <= i < |code| ==> IsPaletteColor(code[i])
  }

  /** `record` is a full guess without repeats, scored against `secret`. */
  predicate ScoredAgainst(record: GuessRecord, secret: seq<Color>)
    requires |secret| == CODE_LENGTH
  {
    |record.colors| == CODE_LENGTH && Distinct(record.colors)
    && record.feedback == Score(record.colors, secret)
  }

  /** Every recorded guess is a full guess without repeats, scored against `secret`. */
  predicate HistoryScored(history: seq<GuessRecord>, secret: seq<Color>)
    requires |secret| == CODE_LENGTH
  {
    forall j :: 0 <= j < |history| ==> ScoredAgainst(history[j], secret)
  }

  /** The status agrees with the history: at most `MAX_ATTEMPTS` guesses;
      only the last one can be the secret, and it is exactly when the game is
      won; the game is lost only after `MAX_ATTEMPTS` guesses and still on
      only before. */
  predicate StatusAgrees(status: Status, history: seq<GuessRecord>, secret: seq<Color>) {
    && |history| <= MAX_ATTEMPTS
    && (forall j :: 0 <= j < |history| - 1 ==> history[j].colors != secret)
    && (status == Won <==> |history| > 0 && history[|history| - 1].colors == secret)
    && (status == Lost ==> |history| == MAX_ATTEMPTS)
    && (status == Playing ==> |history| < MAX_ATTEMPTS)
  }

  /** Recording one more guess while the game is on leaves a status that
      agrees with the longer history: won when the guess is the secret,
      otherwise lost once the history reaches `MAX_ATTEMPTS`, otherwise still on. */
  lemma StatusAfterGuess(history: seq<GuessRecord>, record: GuessRecord, secret: seq<Color>)
    requires StatusAgrees(Playing, history, secret)
    ensures StatusAgrees(if record.colors == secret then Won
                         else if |history| + 1 >= MAX_ATTEMPTS then Lost
                         else Playing, history + [record], secret)
  {
    var h := history + [record];
    assert h[|h| - 1] == record;
    forall j | 0 <= j < |h| - 1 ensures h[j].colors != secret {
      assert h[j] == history[j];
    }
  }

  class Session {
    var secretCode: seq<Color>
    var currentGuess: seq<Color>
    var guessHistory: seq<GuessRecord>
    var gameStatus: Status

    /** The session invariant: a valid secret; a guess being built with at
        most `CODE_LENGTH` colours and no repeats; every recorded guess scored
        against the secret; a status that agrees with the history; and, once
        the game is over, nothing left in the guess being built. */
    ghost predicate Valid()
      reads this
    {
      && IsSecret(secretCode)
      && |currentGuess| <= CODE_LENGTH && Distinct(currentGuess)
      && HistoryScored(guessHistory, secretCode)
      && StatusAgrees(gameStatus, guessHistory, secretCode)
      && (gameStatus != Playing ==> currentGuess == [])
    }

    /** A fresh game: a secret drawn with `picks`, nothing guessed yet. */
    constructor (picks: seq<nat>)
      requires |picks| == CODE_LENGTH && ValidPicks(|COLORS|, picks)
      ensures Valid()
      ensures secretCode == Draw(COLORS, picks)
      ensures currentGuess == [] && guessHistory == [] && gameStatus == Playing
    {
      var code := GenerateSecretCode(picks);
      secretCode := code;
      currentGuess := [];
      guessHistory := [];
      gameStatus := Playing;
    }

    /** Appends `color` to the guess being built, if the guess is not full,
        the game is on and the colour is not in the guess yet. */
    method AddColorToGuess(color: Color)
      requires Valid()
      modifies this`currentGuess
      ensures Valid()
      ensures var accepted := |old(currentGuess)| < CODE_LENGTH && old(gameStatus) == Playing
                              && color !in old(currentGuess);
              currentGuess == if accepted then old(currentGuess) + [color] else old(currentGuess)
    {
      if |currentGuess| < CODE_LENGTH && gameStatus == Playing && color !in currentGuess {
        currentGuess := currentGuess + [color];
      }
    }

    /** Drops the last colour of the guess being built, if there is one. */
    method RemoveLastColor()
      requires Valid()
      modifies this`currentGuess
      ensures Valid()
      ensures |old(currentGuess)| > 0 ==> currentGuess == old(currentGuess)[..|old(currentGuess)| - 1]
      ensures |old(currentGuess)| == 0 ==> currentGuess == old(currentGuess)
    {
      if |currentGuess| > 0 {
        currentGuess := currentGuess[..|currentGuess| - 1];
      }
    }

    /** Submits a full guess while the game is on: records it with its
        feedback, clears the guess being built, and ends the game as won when
        every peg is black, or as lost when the history has reached
        `MAX_ATTEMPTS`. Otherwise nothing changes. */
    method SubmitGuess()
      requires Valid()
      modifies this`currentGuess, this`guessHistory, this`gameStatus
      ensures Valid()
      ensures !(|old(currentGuess)| == CODE_LENGTH && old(gameStatus) == Playing) ==>
                currentGuess == old(currentGuess) && guessHistory == old(guessHistory)
                && gameStatus == old(gameStatus)
      ensures |old(currentGuess)| == CODE_LENGTH && old(gameStatus) == Playing ==>
                && guessHistory == old(guessHistory)
                                   + [GuessRecord(old(currentGuess), Score(old(currentGuess), secretCode))]
                && currentGuess == []
                && gameStatus == (if old(currentGuess) == secretCode then Won
                                  else if |guessHistory| >= MAX_ATTEMPTS then Lost
                                  else Playing)
    {
      if |currentGuess| == CODE_LENGTH && gameStatus == Playing {
        var feedback := CalculateFeedback(currentGuess, secretCode);
        var newGuess := GuessRecord(currentGuess, feedback);
        var newHistory := guessHistory + [newGuess];
        WinIffEqual(currentGuess, secretCode);
        assert HistoryScored(newHistory, secretCode) by {
          assert forall j :: 0 <= j < |newHistory| ==>
                   newHistory[j] == if j < |guessHistory| then guessHistory[j] else newGuess;
        }
        StatusAfterGuess(guessHistory, newGuess, secretCode);
        guessHistory := newHistory;
        currentGuess := [];
        if AllBlack(feedback) {
          gameStatus := Won;
        } else if |newHistory| >= MAX_ATTEMPTS {
          gameStatus := Lost;
        }
      }
    }

    /** Starts over: a new secret drawn with `picks`, nothing guessed, game on. */
    method ResetGame(picks: seq<nat>)
      requires |picks| == CODE_LENGTH && ValidPicks(|COLORS|, picks)
      modifies this
      ensures Valid()
      ensures secretCode == Draw(COLORS, picks)
      ensures currentGuess == [] && guessHistory == [] && gameStatus == Playing
    {
      var code := GenerateSecretCode(picks);
      secretCode := code;
      currentGuess := [];
      guessHistory := [];
      gameStatus := Playing;
    }
  }
}
