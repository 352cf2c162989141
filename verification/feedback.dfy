/** Scoring a guess against the secret. `CalculateFeedback` is the two-pass
    scorer, working in place on a feedback array and on copies of both codes.
    `Score` says what its answer is, by counting instead of by consuming slots. */
module Feedback {
  import opened Colors

  /** One feedback peg: 'black' (right colour, right place), 'white' (right
      colour, other place) or 'empty'. */
  datatype Peg = Black | White | Empty

  /** A slot of a working copy; `None` is the `null` written over a slot
      that has been used up. */
  datatype Option<T> = None | Some(value: T)

  // ---------------------------------------------------------------------
  // Specification
  // ---------------------------------------------------------------------

  /** The number of positions before `k` that the exact pass leaves open
      (guess and secret differ there) and whose secret colour is `c`. */
  function OpenInSecret(guess: seq<Color>, secret: seq<Color>, c: Color, k: nat): nat
    requires |guess| == |secret| && k <= |secret|
  {
    if k == 0 then 0
    else OpenInSecret(guess, secret, c, k - 1)
         + (if guess[k - 1] != secret[k - 1] && secret[k - 1] == c then 1 else 0)
  }

  /** The number of positions before `k` that the exact pass leaves open and
      whose guess colour is `c`. */
  function OpenInGuess(guess: seq<Color>, secret: seq<Color>, c: Color, k: nat): nat
    requires |guess| == |secret| && k <= |guess|
  {
    if k == 0 then 0
    else OpenInGuess(guess, secret, c, k - 1)
         + (if guess[k - 1] != secret[k - 1] && guess[k - 1] == c then 1 else 0)
  }

  /** The number of positions before `k` where guess and secret both hold `c`. */
  function ExactOf(guess: seq<Color>, secret: seq<Color>, c: Color, k: nat): nat
    requires |guess| == |secret| && k <= |guess|
  {
    if k == 0 then 0
    else ExactOf(guess, secret, c, k - 1)
         + (if guess[k - 1] == secret[k - 1] && guess[k - 1] == c then 1 else 0)
  }

  /** The peg position `i` deserves: black on an exact match; otherwise white
      when fewer open guess positions of this colour come before `i` than
      there are open secret positions of this colour; otherwise empty. */
  function PegAt(guess: seq<Color>, secret: seq<Color>, i: nat): Peg
    requires |guess| == |secret| && i < |guess|
  {
    if guess[i] == secret[i] then Black
    else if OpenInGuess(guess, secret, guess[i], i) < OpenInSecret(guess, secret, guess[i], |secret|) then White
    else Empty
  }

  /** The feedback for `guess` against `secret`, one peg per guess position. */
  function Score(guess: seq<Color>, secret: seq<Color>): seq<Peg>
    requires |guess| == |secret|
  {
    seq(|guess|, i requires 0 <= i < |guess| => PegAt(guess, secret, i))
  }

  /** Every peg is black: the win test. */
  predicate AllBlack(pegs: seq<Peg>) {
    forall p :: p in pegs ==> p == Black
  }

  /** The number of pegs of `pegs` before `k` that are not empty and sit at
      a position where `guess` holds `c`. */
  function ScoredOf(guess: seq<Color>, pegs: seq<Peg>, c: Color, k: nat): nat
    requires |guess| == |pegs| && k <= |guess|
  {
    if k == 0 then 0
    else ScoredOf(guess, pegs, c, k - 1) + (if guess[k - 1] == c && pegs[k - 1] != Empty then 1 else 0)
  }

  function Min(a: nat, b: nat): nat {
    if a < b then a else b
  }

  // ---------------------------------------------------------------------
  // The working copy of the secret during the second pass
  // ---------------------------------------------------------------------

  /** The feedback array once the first pass has handled the positions
      before `i`: black where guess and secret agree, empty elsewhere. */
  ghost function ExactPegs(guess: seq<Color>, secret: seq<Color>, i: nat): (pegs: seq<Peg>)
    requires |guess| == |secret| && i <= |guess|
    ensures |pegs| == |guess|
  {
    seq(|guess|, j requires 0 <= j < |guess| => if j < i && guess[j] == secret[j] then Black else Empty)
  }

  /** A copy of `code` (the guess or the secret) once the first pass has
      handled the positions before `i`: cleared where guess and secret agree. */
  ghost function Cleared(guess: seq<Color>, secret: seq<Color>, code: seq<Color>, i: nat): (copy: seq<Option<Color>>)
    requires |guess| == |secret| == |code| && i <= |guess|
    ensures |copy| == |code|
  {
    seq(|code|, j requires 0 <= j < |code| => if j < i && guess[j] == secret[j] then None else Some(code[j]))
  }

  /** One step of the first pass, at position `i`: an exact match turns the
      peg black and clears the slot in both copies; otherwise nothing changes. */
  lemma ExactPassStep(guess: seq<Color>, secret: seq<Color>, i: nat)
    requires |guess| == |secret| && i < |guess|
    ensures guess[i] == secret[i] ==>
              && ExactPegs(guess, secret, i + 1) == ExactPegs(guess, secret, i)[i := Black]
              && Cleared(guess, secret, secret, i + 1) == Cleared(guess, secret, secret, i)[i := None]
              && Cleared(guess, secret, guess, i + 1) == Cleared(guess, secret, guess, i)[i := None]
    ensures guess[i] != secret[i] ==>
              && ExactPegs(guess, secret, i + 1) == ExactPegs(guess, secret, i)
              && Cleared(guess, secret, secret, i + 1) == Cleared(guess, secret, secret, i)
              && Cleared(guess, secret, guess, i + 1) == Cleared(guess, secret, guess, i)
  {
  }

  /** After the first pass, the secret copy and the feedback are where the
      second pass starts. */
  lemma ExactPassDone(guess: seq<Color>, secret: seq<Color>)
    requires |guess| == |secret|
    ensures Cleared(guess, secret, secret, |guess|) == Slots(guess, secret, 0)
    ensures ExactPegs(guess, secret, |guess|) == PegsAfter(guess, secret, 0)
  {
  }

  /** Slot `k` of the secret copy once the second pass has handled the guess
      positions before `i`: exact positions were cleared by the first pass;
      of the open positions of each colour, those ranked below the number of
      open guess positions of that colour handled so far have been used up. */
  ghost function SlotAfter(guess: seq<Color>, secret: seq<Color>, i: nat, k: nat): Option<Color>
    requires |guess| == |secret| && i <= |guess| && k < |secret|
  {
    if guess[k] == secret[k]
       || OpenInSecret(guess, secret, secret[k], k) < OpenInGuess(guess, secret, secret[k], i)
    then None
    else Some(secret[k])
  }

  ghost function Slots(guess: seq<Color>, secret: seq<Color>, i: nat): (slots: seq<Option<Color>>)
    requires |guess| == |secret| && i <= |guess|
    ensures |slots| == |secret|
  {
    seq(|secret|, k requires 0 <= k < |secret| => SlotAfter(guess, secret, i, k))
  }

  /** The feedback array once the second pass has handled the guess positions
      before `i`: those positions hold their final pegs, the rest what the
      first pass left (black on an exact match, empty otherwise). */
  ghost function PegsAfter(guess: seq<Color>, secret: seq<Color>, i: nat): (pegs: seq<Peg>)
    requires |guess| == |secret| && i <= |guess|
    ensures |pegs| == |guess|
  {
    seq(|guess|, j requires 0 <= j < |guess| =>
      if j < i then PegAt(guess, secret, j) else if guess[j] == secret[j] then Black else Empty)
  }

  /** The index of the first occurrence of `x` in `a`, or -1 when there is none. */
  function IndexOf<T(==)>(a: seq<T>, x: T): (r: int)
    ensures -1 <= r < |a|
    ensures r == -1 <==> x !in a
    ensures r != -1 ==> a[r] == x && x !in a[..r]
  {
    if a == [] then -1
    else if a[0] == x then 0
    else
      var r := IndexOf(a[1..], x);
      assert a[1..][..(if r == -1 then 0 else r)] == a[1..(if r == -1 then 1 else r + 1)];
      if r == -1 then -1 else r + 1
  }

  // ---------------------------------------------------------------------
  // Facts about the counts
  // ---------------------------------------------------------------------

  lemma {:induction false} OpenInSecretMonotone(guess: seq<Color>, secret: seq<Color>, c: Color, k: nat, k': nat)
    requires |guess| == |secret| && k <= k' <= |secret|
    ensures OpenInSecret(guess, secret, c, k) <= OpenInSecret(guess, secret, c, k')
    decreases k' - k
  {
    if k < k' {
      OpenInSecretMonotone(guess, secret, c, k, k' - 1);
    }
  }

  /** Below the count at `k`, every rank is taken by an open secret position
      of colour `c` before `k`; `j` is the one holding rank `r`. */
  lemma {:induction false} RankWitness(guess: seq<Color>, secret: seq<Color>, c: Color, k: nat, r: nat)
      returns (j: nat)
    requires |guess| == |secret| && k <= |secret|
    requires r < OpenInSecret(guess, secret, c, k)
    ensures j < k && guess[j] != secret[j] && secret[j] == c && OpenInSecret(guess, secret, c, j) == r
  {
    if r < OpenInSecret(guess, secret, c, k - 1) {
      j := RankWitness(guess, secret, c, k - 1, r);
    } else {
      j := k - 1;
    }
  }

  /** Before the second pass reaches guess position `i`, a slot of colour `c`
      is left among the first `k` of the secret copy exactly when fewer open
      guess positions of colour `c` have been handled than the first `k`
      secret positions hold open. */
  lemma LiveInPrefix(guess: seq<Color>, secret: seq<Color>, i: nat, c: Color, k: nat)
    requires |guess| == |secret| && i <= |guess| && k <= |secret|
    ensures Some(c) in Slots(guess, secret, i)[..k]
            <==> OpenInGuess(guess, secret, c, i) < OpenInSecret(guess, secret, c, k)
  {
    var slots := Slots(guess, secret, i);
    var m := OpenInGuess(guess, secret, c, i);
    if Some(c) in slots[..k] {
      var j :| 0 <= j < k && slots[..k][j] == Some(c);
      assert slots[j] == SlotAfter(guess, secret, i, j);
      OpenInSecretMonotone(guess, secret, c, j + 1, k);
    }
    if m < OpenInSecret(guess, secret, c, k) {
      var j := RankWitness(guess, secret, c, k, m);
      assert slots[..k][j] == Some(c);
    }
  }

  /** Second pass at an exact position: the secret copy is left as it is. */
  lemma SecondPassExact(guess: seq<Color>, secret: seq<Color>, i: nat)
    requires |guess| == |secret| && i < |guess| && guess[i] == secret[i]
    ensures Slots(guess, secret, i + 1) == Slots(guess, secret, i)
    ensures PegsAfter(guess, secret, i + 1) == PegsAfter(guess, secret, i)
  {
    var slots := Slots(guess, secret, i);
    var next := Slots(guess, secret, i + 1);
    forall j | 0 <= j < |secret| ensures next[j] == slots[j] {
      assert OpenInGuess(guess, secret, secret[j], i + 1) == OpenInGuess(guess, secret, secret[j], i);
    }
  }

  /** Second pass at an open position whose colour `indexOf` does not find
      in the secret copy: the peg stays empty and the copy is unchanged. */
  lemma SecondPassMiss(guess: seq<Color>, secret: seq<Color>, i: nat)
    requires |guess| == |secret| && i < |guess| && guess[i] != secret[i]
    requires IndexOf(Slots(guess, secret, i), Some(guess[i])) == -1
    ensures PegAt(guess, secret, i) == Empty
    ensures Slots(guess, secret, i + 1) == Slots(guess, secret, i)
    ensures PegsAfter(guess, secret, i + 1) == PegsAfter(guess, secret, i)
  {
    var slots := Slots(guess, secret, i);
    var next := Slots(guess, secret, i + 1);
    var c := guess[i];
    var m := OpenInGuess(guess, secret, c, i);
    assert OpenInGuess(guess, secret, c, i + 1) == m + 1;
    LiveInPrefix(guess, secret, i, c, |secret|);
    assert slots[..|secret|] == slots;
    assert OpenInSecret(guess, secret, c, |secret|) <= m;
    forall j | 0 <= j < |secret| ensures next[j] == slots[j] {
      if guess[j] != secret[j] && secret[j] == c {
        OpenInSecretMonotone(guess, secret, c, j + 1, |secret|);
      } else if secret[j] != c {
        assert OpenInGuess(guess, secret, secret[j], i + 1) == OpenInGuess(guess, secret, secret[j], i);
      }
    }
  }

  /** Second pass at an open position whose colour `indexOf` finds at slot
      `k` of the secret copy: the peg is white, and clearing slot `k` gives
      the copy for the next position. */
  lemma SecondPassHit(guess: seq<Color>, secret: seq<Color>, i: nat, k: int)
    requires |guess| == |secret| && i < |guess| && guess[i] != secret[i]
    requires k == IndexOf(Slots(guess, secret, i), Some(guess[i])) && k != -1
    ensures PegAt(guess, secret, i) == White
    ensures Slots(guess, secret, i + 1) == Slots(guess, secret, i)[k := None]
    ensures PegsAfter(guess, secret, i + 1) == PegsAfter(guess, secret, i)[i := White]
  {
    var slots := Slots(guess, secret, i);
    var next := Slots(guess, secret, i + 1);
    var c := guess[i];
    var m := OpenInGuess(guess, secret, c, i);
    assert OpenInGuess(guess, secret, c, i + 1) == m + 1;
    // the slot found is the first live one of colour c, so its rank is m
    LiveInPrefix(guess, secret, i, c, k);
    assert slots[k] == SlotAfter(guess, secret, i, k);
    assert OpenInSecret(guess, secret, c, k) == m;
    OpenInSecretMonotone(guess, secret, c, k + 1, |secret|);
    forall j | 0 <= j < |secret| ensures next[j] == slots[k := None][j] {
      if j != k && guess[j] != secret[j] && secret[j] == c {
        if j < k {
          OpenInSecretMonotone(guess, secret, c, j + 1, k);
        } else {
          OpenInSecretMonotone(guess, secret, c, k + 1, j);
        }
      } else if secret[j] != c {
        assert OpenInGuess(guess, secret, secret[j], i + 1) == OpenInGuess(guess, secret, secret[j], i);
      }
    }
  }

  // ---------------------------------------------------------------------
  // The scorer
  // ---------------------------------------------------------------------

  /** The first pass: wherever guess and secret agree, the peg turns black
      and the slot is cleared in both copies. */
  method ExactPass(guess: seq<Color>, secret: seq<Color>,
                   feedback: array<Peg>, secretCopy: array<Option<Color>>, guessCopy: array<Option<Color>>)
    requires |guess| == |secret| == CODE_LENGTH
    requires feedback.Length == secretCopy.Length == guessCopy.Length == CODE_LENGTH
    requires secretCopy != guessCopy
    requires feedback[..] == ExactPegs(guess, secret, 0)
    requires secretCopy[..] == Cleared(guess, secret, secret, 0)
    requires guessCopy[..] == Cleared(guess, secret, guess, 0)
    modifies feedback, secretCopy, guessCopy
    ensures feedback[..] == ExactPegs(guess, secret, CODE_LENGTH)
    ensures secretCopy[..] == Cleared(guess, secret, secret, CODE_LENGTH)
    ensures guessCopy[..] == Cleared(guess, secret, guess, CODE_LENGTH)
  {
    for i := 0 to CODE_LENGTH
      invariant feedback[..] == ExactPegs(guess, secret, i)
      invariant secretCopy[..] == Cleared(guess, secret, secret, i)
      invariant guessCopy[..] == Cleared(guess, secret, guess, i)
    {
      ExactPassStep(guess, secret, i);
      if guessCopy[i] == secretCopy[i] {
        feedback[i] := Black;
        secretCopy[i] := None;
        guessCopy[i] := None;
      }
    }
  }

  /** The second pass: each guess position the first pass left open gets a
      white peg when `indexOf` finds its colour among the secret slots still
      present, and that slot is cleared. */
  method ColourPass(guess: seq<Color>, secret: seq<Color>,
                    feedback: array<Peg>, secretCopy: array<Option<Color>>, guessCopy: array<Option<Color>>)
    requires |guess| == |secret| == CODE_LENGTH
    requires feedback.Length == secretCopy.Length == guessCopy.Length == CODE_LENGTH
    requires secretCopy != guessCopy
    requires feedback[..] == PegsAfter(guess, secret, 0)
    requires secretCopy[..] == Slots(guess, secret, 0)
    requires guessCopy[..] == Cleared(guess, secret, guess, CODE_LENGTH)
    modifies feedback, secretCopy
    ensures feedback[..] == Score(guess, secret)
  {
    for i := 0 to CODE_LENGTH
      invariant secretCopy[..] == Slots(guess, secret, i)
      invariant feedback[..] == PegsAfter(guess, secret, i)
    {
      if guessCopy[i] != None {
        var secretIndex := IndexOf(secretCopy[..], guessCopy[i]);
        if secretIndex != -1 {
          SecondPassHit(guess, secret, i, secretIndex);
          feedback[i] := White;
          secretCopy[secretIndex] := None;
        } else {
          SecondPassMiss(guess, secret, i);
        }
      } else {
        SecondPassExact(guess, secret, i);
      }
    }
    assert PegsAfter(guess, secret, CODE_LENGTH) == Score(guess, secret);
  }

  /** Scores `guess` against `secret`: a feedback array of empty pegs and
      copies of both codes go through the first pass, then the second. */
  method CalculateFeedback(guess: seq<Color>, secret: seq<Color>) returns (pegs: seq<Peg>)
    requires |guess| == CODE_LENGTH && |secret| == CODE_LENGTH
    ensures pegs == Score(guess, secret)
    ensures |pegs| == CODE_LENGTH
    ensures forall i :: 0 <= i < CODE_LENGTH ==> (pegs[i] == Black <==> guess[i] == secret[i])
  {
    var feedback := new Peg[CODE_LENGTH](_ => Empty);
    var secretCopy := new Option<Color>[CODE_LENGTH](j requires 0 <= j < CODE_LENGTH => Some(secret[j]));
    var guessCopy := new Option<Color>[CODE_LENGTH](j requires 0 <= j < CODE_LENGTH => Some(guess[j]));
    assert feedback[..] == ExactPegs(guess, secret, 0);
    assert secretCopy[..] == Cleared(guess, secret, secret, 0);
    assert guessCopy[..] == Cleared(guess, secret, guess, 0);
    ExactPass(guess, secret, feedback, secretCopy, guessCopy);
    ExactPassDone(guess, secret);
    ColourPass(guess, secret, feedback, secretCopy, guessCopy);
    pegs := feedback[..];
  }

  // ---------------------------------------------------------------------
  // Properties of the feedback
  // ---------------------------------------------------------------------

  /** All pegs are black exactly when the guess is the secret. */
  lemma WinIffEqual(guess: seq<Color>, secret: seq<Color>)
    requires |guess| == |secret|
    ensures AllBlack(Score(guess, secret)) <==> guess == secret
  {
    var pegs := Score(guess, secret);
    if AllBlack(pegs) {
      forall i | 0 <= i < |guess| ensures guess[i] == secret[i] {
        assert pegs[i] in pegs;
      }
    }
  }

  /** Per colour, the black and white pegs at positions of that colour are the
      exact matches of it plus the smaller of its open multiplicities in the
      guess and in the secret (over the first `k` guess positions). */
  lemma {:induction false} ScoredPrefix(guess: seq<Color>, secret: seq<Color>, c: Color, k: nat)
    requires |guess| == |secret| && k <= |guess|
    ensures ScoredOf(guess, Score(guess, secret), c, k)
            == ExactOf(guess, secret, c, k)
               + Min(OpenInGuess(guess, secret, c, k), OpenInSecret(guess, secret, c, |secret|))
  {
    if k > 0 {
      ScoredPrefix(guess, secret, c, k - 1);
    }
  }

  /** A colour's multiplicity in the first `k` positions of either code is
      its exact matches plus its open positions there. */
  lemma {:induction false} MultiplicitySplit(guess: seq<Color>, secret: seq<Color>, c: Color, k: nat)
    requires |guess| == |secret| && k <= |guess|
    ensures multiset(guess[..k])[c] == ExactOf(guess, secret, c, k) + OpenInGuess(guess, secret, c, k)
    ensures multiset(secret[..k])[c] == ExactOf(guess, secret, c, k) + OpenInSecret(guess, secret, c, k)
  {
    if k > 0 {
      MultiplicitySplit(guess, secret, c, k - 1);
      assert guess[..k] == guess[..k - 1] + [guess[k - 1]];
      assert secret[..k] == secret[..k - 1] + [secret[k - 1]];
    }
  }

  /** Conservation: per colour, the black and white pegs at guess positions of
      that colour number the exact matches plus the smaller of the remaining
      multiplicities, and so never more than the colour's count in the guess
      or in the secret. */
  lemma ColourConservation(guess: seq<Color>, secret: seq<Color>, c: Color)
    requires |guess| == |secret|
    ensures ScoredOf(guess, Score(guess, secret), c, |guess|)
            == ExactOf(guess, secret, c, |guess|)
               + Min(OpenInGuess(guess, secret, c, |guess|), OpenInSecret(guess, secret, c, |secret|))
    ensures ScoredOf(guess, Score(guess, secret), c, |guess|)
            <= Min(multiset(guess)[c], multiset(secret)[c])
  {
    ScoredPrefix(guess, secret, c, |guess|);
    MultiplicitySplit(guess, secret, c, |guess|);
    assert guess[..|guess|] == guess && secret[..|secret|] == secret;
  }

  /** With no repeated colour in the guess, a peg is white exactly when its
      colour is in the secret but at another position. */
  lemma DistinctWhite(guess: seq<Color>, secret: seq<Color>, i: nat)
    requires |guess| == |secret| && i < |guess|
    requires Distinct(guess)
    ensures Score(guess, secret)[i] == White <==> guess[i] != secret[i] && guess[i] in secret
  {
    var c := guess[i];
    if c != secret[i] {
      NoneBefore(guess, secret, c, i);
      if c in secret {
        var k :| 0 <= k < |secret| && secret[k] == c;
        assert guess[k] != secret[k];
        OpenInSecretMonotone(guess, secret, c, k + 1, |secret|);
      } else {
        AbsentFromSecret(guess, secret, c, |secret|);
      }
    }
  }

  /** A guess without repeats has no open position of `guess[i]` before `i`. */
  lemma {:induction false} NoneBefore(guess: seq<Color>, secret: seq<Color>, c: Color, k: nat)
    requires |guess| == |secret| && k <= |guess|
    requires forall j :: 0 <= j < k ==> guess[j] != c
    ensures OpenInGuess(guess, secret, c, k) == 0
  {
    if k > 0 {
      NoneBefore(guess, secret, c, k - 1);
    }
  }

  /** A colour absent from the secret has no open secret position. */
  lemma {:induction false} AbsentFromSecret(guess: seq<Color>, secret: seq<Color>, c: Color, k: nat)
    requires |guess| == |secret| && k <= |secret|
    requires c !in secret
    ensures OpenInSecret(guess, secret, c, k) == 0
  {
    if k > 0 {
      AbsentFromSecret(guess, secret, c, k - 1);
    }
  }

  /** Black and white pegs together never outnumber the positions of the guess. */
  lemma BlackWhiteBound(guess: seq<Color>, secret: seq<Color>)
    requires |guess| == |secret|
    ensures multiset(Score(guess, secret))[Black] + multiset(Score(guess, secret))[White] <= |guess|
  {
    PegTotal(Score(guess, secret));
  }

  /** Every peg is black, white or empty, so the three counts add up to the length. */
  lemma {:induction false} PegTotal(pegs: seq<Peg>)
    ensures multiset(pegs)[Black] + multiset(pegs)[White] + multiset(pegs)[Empty] == |pegs|
  {
    if pegs != [] {
      var init := pegs[..|pegs| - 1];
      PegTotal(init);
      assert pegs == init + [pegs[|pegs| - 1]];
      var last := pegs[|pegs| - 1];
      assert multiset(pegs) == multiset(init) + multiset{last};
      assert multiset{last}[Black] + multiset{last}[White] + multiset{last}[Empty] == 1 by {
        match last
        case Black =>
        case White =>
        case Empty =>
      }
    }
  }

  /** Three worked scorings against the secret red, green, blue, yellow: the
      secret itself, a rearrangement of it, and four colours it lacks. */
  lemma ScoreExamples()
    ensures Score(["red", "green", "blue", "yellow"], ["red", "green", "blue", "yellow"])
            == [Black, Black, Black, Black]
    ensures Score(["green", "red", "yellow", "blue"], ["red", "green", "blue", "yellow"])
            == [White, White, White, White]
    ensures Score(["white", "pink", "cyan", "purple"], ["red", "green", "blue", "yellow"])
            == [Empty, Empty, Empty, Empty]
  {
    var secret := ["red", "green", "blue", "yellow"];
    var swapped := ["green", "red", "yellow", "blue"];
    var absent := ["white", "pink", "cyan", "purple"];
    forall i | 0 <= i < 4
      ensures Score(swapped, secret)[i] == White && Score(absent, secret)[i] == Empty
    {
      DistinctWhite(swapped, secret, i);
      DistinctWhite(absent, secret, i);
    }
  }
}
