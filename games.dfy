/**
 * The games screen's state machine: choosing a game, the decoder quiz
 * (question, answer, score floored at zero, ten questions) and the deck of
 * the memory game. The clock and the random draws are parameters.
 */
module GamesViewModel {
  import opened Wrappers
  import opened Strings
  import opened Constants
  import opened MorseTranslator
  import opened Shuffle
  import opened Seqs

  datatype GameType = Decoder | SpeedChallenge | MemoryMatch | SosRescue

  datatype MemoryCard = MemoryCard(value: string, morse: string, isFlipped: bool)

  datatype GamesUiState = GamesUiState(
    selectedGame: Option<GameType>,
    isPlaying: bool,
    difficulty: string,
    score: int,
    currentQuestion: string,
    correctAnswer: string,
    questionNumber: int,
    totalQuestions: int,
    lastAnswerCorrect: Option<bool>,
    gameComplete: bool,
    gameStartTime: int,
    memoryCards: seq<MemoryCard>)

  /** `GamesUiState()` with its default arguments. */
  function DefaultState(): (r: GamesUiState)
    ensures r.selectedGame == None && !r.isPlaying && !r.gameComplete
    ensures r.score == 0 && r.questionNumber == 0 && r.totalQuestions == 10 && r.memoryCards == []
  {
    GamesUiState(None, false, "EASY", 0, "", "", 0, 10, None, false, 0, [])
  }

  const QuestionsPerGame: int := 10

  /** `('A'..'Z') + ('0'..'9')`: the characters a decoder question can ask for. */
  const QuestionPool: string := Letters + Digits

  /** `('A'..'H')`: the characters of the memory deck. */
  const MemoryLetters: string := "ABCDEFGH"

  /** Every pool character has a code, and that code decodes back to the character alone. */
  lemma PoolHasCodes(i: int)
    requires 0 <= i < |QuestionPool|
    ensures GetCharMorse(QuestionPool[i]) == CharToMorse(QuestionPool[i]) && CharToMorse(QuestionPool[i]).Some?
    ensures MorseToText(CharToMorse(QuestionPool[i]).value) == [QuestionPool[i]]
  {
    var c := QuestionPool[i];
    PrefixIndex(Letters + Digits + Punctuation, " ", i);
    PrefixIndex(Letters + Digits, Punctuation, i);
    KeyHasCode(i);
    assert !IsLower(c) by {
      if IsLower(c) {
        LowercaseAbsent(c);
      }
    }
    SingleCodeDecodes(c);
  }

  /** The card shown for a character: its code, face down. */
  function CardOf(c: char): MemoryCard
  {
    MemoryCard([c], GetCharMorse(c).GetOr(""), false)
  }

  /** Two cards per character, in order. */
  function Pairs(s: string): seq<MemoryCard>
  {
    if s == [] then [] else Pairs(s[..|s| - 1]) + [CardOf(s[|s| - 1]), CardOf(s[|s| - 1])]
  }

  /** A card occurs twice for each time its character occurs. */
  lemma {:induction false} PairsCount(s: string, c: char)
    ensures multiset(Pairs(s))[CardOf(c)] == 2 * multiset(s)[c]
  {
    if s != [] {
      var init, last := s[..|s| - 1], s[|s| - 1];
      PairsCount(init, c);
      var k := CardOf(last);
      assert Pairs(s) == Pairs(init) + [k, k];
      assert s == init + [last];
      CountAppend(Pairs(init), k, CardOf(c));
      assert multiset(s)[c] == multiset(init)[c] + (if last == c then 1 else 0);
      CardOfInjective(last, c);
    }
  }

  lemma CardOfInjective(a: char, b: char)
    ensures CardOf(a) == CardOf(b) <==> a == b
  {
    assert CardOf(a).value == [a] && CardOf(b).value == [b];
  }

  lemma CountAppend(p: seq<MemoryCard>, k: MemoryCard, x: MemoryCard)
    ensures multiset(p + [k, k])[x] == multiset(p)[x] + (if k == x then 2 else 0)
  {
    assert multiset(p + [k, k]) == multiset(p) + multiset{k, k};
  }

  lemma {:induction false} PairsLength(s: string)
    ensures |Pairs(s)| == 2 * |s|
  {
    if s != [] {
      PairsLength(s[..|s| - 1]);
    }
  }

  lemma {:induction false} DistinctOnce(s: string, i: int)
    requires Distinct(s) && 0 <= i < |s|
    ensures multiset(s)[s[i]] == 1
  {
    var init, last := s[..|s| - 1], s[|s| - 1];
    assert s == init + [last];
    assert multiset(s) == multiset(init) + multiset{last};
    if i < |s| - 1 {
      assert init[i] == s[i];
      DistinctOnce(init, i);
    } else {
      assert last !in init by {
        forall j | 0 <= j < |init| ensures init[j] != last {
          assert init[j] == s[j];
        }
      }
    }
  }

  /**
   * A deck built from distinct characters: two cards per character, each
   * exactly twice, and no card of another character.
   */
  lemma DeckOf(s: string, c: char)
    requires Distinct(s)
    ensures |Pairs(s)| == 2 * |s|
    ensures c in s ==> multiset(Pairs(s))[CardOf(c)] == 2
    ensures c !in s ==> CardOf(c) !in Pairs(s)
  {
    PairsLength(s);
    PairsCount(s, c);
    if c in s {
      var i :| 0 <= i < |s| && s[i] == c;
      DistinctOnce(s, i);
    }
  }

  /**
   * The memory deck: 16 cards; each of A to H exactly twice, face down, with
   * a code that decodes back to its character; no other card.
   */
  lemma MemoryDeck(c: char)
    ensures |Pairs(MemoryLetters)| == 16
    ensures 'A' <= c <= 'H' ==> multiset(Pairs(MemoryLetters))[CardOf(c)] == 2
    ensures !('A' <= c <= 'H') ==> CardOf(c) !in Pairs(MemoryLetters)
    ensures 'A' <= c <= 'H' ==> !CardOf(c).isFlipped && MorseToText(CardOf(c).morse) == [c]
  {
    assert Distinct(MemoryLetters);
    assert c in MemoryLetters <==> 'A' <= c <= 'H';
    DeckOf(MemoryLetters, c);
    if 'A' <= c <= 'H' {
      var i := c as int - 'A' as int;
      LettersAt(i);
      assert QuestionPool[i] == c;
      PoolHasCodes(i);
    }
  }

  class GamesViewModel {
    var state: GamesUiState

    constructor()
      ensures state == DefaultState()
      ensures Valid()
    {
      state := DefaultState();
    }

    /** The score is never negative and the question counter never passes the game's length. */
    predicate Valid()
      reads this
    {
      state.score >= 0 && 0 <= state.questionNumber <= state.totalQuestions
    }

    /** `selectGame`: only the selected game changes. */
    method SelectGame(gameType: GameType)
      requires Valid()
      modifies this
      ensures Valid()
      ensures state == old(state).(selectedGame := Some(gameType))
    {
      state := state.(selectedGame := Some(gameType));
    }

    /**
     * `startGame`: dispatch on the selected game; nothing happens when none
     * is selected. `pick` is the draw of `random()`, `draws` those of
     * `shuffled()`, `now` the clock.
     */
    method StartGame(difficulty: string, pick: int, draws: seq<int>, now: int)
      requires Valid()
      requires 0 <= pick < |QuestionPool| && ValidDraws(2 * |MemoryLetters|, draws)
      modifies this
      ensures Valid()
      ensures old(state).selectedGame == None ==> state == old(state)
      ensures old(state).selectedGame.Some? && old(state).selectedGame.value != MemoryMatch ==>
        state == old(state).(isPlaying := true, difficulty := difficulty,
          currentQuestion := CharToMorse(QuestionPool[pick]).value, correctAnswer := [QuestionPool[pick]],
          score := 0, questionNumber := 1, totalQuestions := QuestionsPerGame, gameStartTime := now)
      ensures old(state).selectedGame == Some(MemoryMatch) ==>
        multiset(state.memoryCards) == multiset(Pairs(MemoryLetters))
        && state == old(state).(isPlaying := true, difficulty := difficulty,
          memoryCards := state.memoryCards, score := 0, gameStartTime := now)
    {
      match state.selectedGame
      case Some(Decoder) => StartDecoderGame(difficulty, pick, now);
      case Some(SpeedChallenge) => StartDecoderGame(difficulty, pick, now);
      case Some(MemoryMatch) => StartMemoryGame(difficulty, draws, now);
      case Some(SosRescue) => StartDecoderGame(difficulty, pick, now);
      case None =>
    }

    /**
     * `startDecoderGame` (also behind the speed and SOS games): a random
     * pool character becomes the answer and its code the question; the
     * counters restart. Its `?: return` cannot fire, since every pool
     * character has a code.
     */
    method StartDecoderGame(difficulty: string, pick: int, now: int)
      requires Valid() && 0 <= pick < |QuestionPool|
      modifies this
      ensures Valid()
      ensures state == old(state).(isPlaying := true, difficulty := difficulty,
        currentQuestion := CharToMorse(QuestionPool[pick]).value, correctAnswer := [QuestionPool[pick]],
        score := 0, questionNumber := 1, totalQuestions := QuestionsPerGame, gameStartTime := now)
      ensures MorseToText(state.currentQuestion) == state.correctAnswer
    {
      var targetChar := RandomItem(QuestionPool, pick);
      PoolHasCodes(pick);
      var morse := GetCharMorse(targetChar).value;
      assert MorseToText(morse) == [targetChar];
      state := state.(isPlaying := true, difficulty := difficulty, currentQuestion := morse,
        correctAnswer := [targetChar], score := 0, questionNumber := 1,
        totalQuestions := QuestionsPerGame, gameStartTime := now);
    }

    /** The loop of `startMemoryGame` that adds two cards per character. */
    static method BuildPairs(characters: string) returns (pairs: seq<MemoryCard>)
      ensures pairs == Pairs(characters)
    {
      pairs := [];
      for i := 0 to |characters|
        invariant pairs == Pairs(characters[..i])
      {
        var c := characters[i];
        var morse := GetCharMorse(c).GetOr("");
        pairs := pairs + [MemoryCard([c], morse, false)];
        pairs := pairs + [MemoryCard([c], morse, false)];
        assert characters[..i + 1][..i] == characters[..i];
      }
      assert characters[..|characters|] == characters;
    }

    /** `startMemoryGame`: the 16 cards, shuffled; score and clock restart. */
    method StartMemoryGame(difficulty: string, draws: seq<int>, now: int)
      requires Valid() && ValidDraws(2 * |MemoryLetters|, draws)
      modifies this
      ensures Valid()
      ensures multiset(state.memoryCards) == multiset(Pairs(MemoryLetters))
      ensures |state.memoryCards| == 16
      ensures state == old(state).(isPlaying := true, difficulty := difficulty,
        memoryCards := state.memoryCards, score := 0, gameStartTime := now)
    {
      var pairs := BuildPairs(MemoryLetters);
      PairsLength(MemoryLetters);
      var cards := Shuffled(pairs, draws);
      state := state.(isPlaying := true, difficulty := difficulty, memoryCards := cards,
        score := 0, gameStartTime := now);
    }

    /**
     * `submitAnswer`: +10 for an answer equal to the expected one ignoring
     * case, -5 otherwise, never below zero; then the game ends after its
     * last question, or the next question is drawn with `pick`.
     */
    method SubmitAnswer(answer: string, pick: int)
      requires Valid() && 0 <= pick < |QuestionPool|
      modifies this
      ensures Valid()
      ensures var correct := EqualsIgnoreCase(answer, old(state).correctAnswer);
        old(state).questionNumber >= old(state).totalQuestions ==>
        state == old(state).(score := NextScore(old(state).score, correct), lastAnswerCorrect := Some(correct),
          isPlaying := false, gameComplete := true)
      ensures var correct := EqualsIgnoreCase(answer, old(state).correctAnswer);
        old(state).questionNumber < old(state).totalQuestions ==>
        state == old(state).(score := NextScore(old(state).score, correct),
          questionNumber := old(state).questionNumber + 1,
          currentQuestion := CharToMorse(QuestionPool[pick]).value, correctAnswer := [QuestionPool[pick]],
          lastAnswerCorrect := None)
        && MorseToText(state.currentQuestion) == state.correctAnswer
    {
      var isCorrect := EqualsIgnoreCase(answer, state.correctAnswer);
      var points := if isCorrect then GamePointsCorrect else GamePointsWrong;
      var score := state.score + points;
      state := state.(score := if score < 0 then 0 else score, lastAnswerCorrect := Some(isCorrect));
      assert state.score == NextScore(old(state).score, isCorrect);
      if state.questionNumber >= state.totalQuestions {
        EndGame();
      } else {
        NextQuestion(pick);
      }
    }

    /** `nextQuestion`: a fresh character and its code; the counter moves on by one. */
    method NextQuestion(pick: int)
      requires 0 <= pick < |QuestionPool| && state.score >= 0
      requires 0 <= state.questionNumber < state.totalQuestions
      modifies this
      ensures Valid()
      ensures state == old(state).(questionNumber := old(state).questionNumber + 1,
        currentQuestion := CharToMorse(QuestionPool[pick]).value, correctAnswer := [QuestionPool[pick]],
        lastAnswerCorrect := None)
      ensures MorseToText(state.currentQuestion) == state.correctAnswer
    {
      var targetChar := RandomItem(QuestionPool, pick);
      PoolHasCodes(pick);
      var morse := GetCharMorse(targetChar).value;
      assert MorseToText(morse) == [targetChar];
      state := state.(questionNumber := state.questionNumber + 1, currentQuestion := morse,
        correctAnswer := [targetChar], lastAnswerCorrect := None);
    }

    /** `endGame`, its state part: play stops and the game is marked complete. */
    method EndGame()
      requires Valid()
      modifies this
      ensures Valid()
      ensures state == old(state).(isPlaying := false, gameComplete := true)
    {
      state := state.(isPlaying := false, gameComplete := true);
    }

    /** `exitGame`: back to the default state. */
    method ExitGame()
      modifies this
      ensures Valid()
      ensures state == DefaultState()
    {
      state := DefaultState();
    }
  }

  /** The score rule on its own: the new score is never negative and moves by at most 10. */
  function NextScore(score: int, correct: bool): (r: int)
    requires score >= 0
    ensures r >= 0
    ensures correct ==> r == score + GamePointsCorrect
    ensures !correct ==> r <= score && score - r <= 5 && (score >= 5 ==> r == score + GamePointsWrong)
    ensures !correct && score < 5 ==> r == 0
  {
    var s := score + (if correct then GamePointsCorrect else GamePointsWrong);
    if s < 0 then 0 else s
  }

  /** The score after a run of answers is at most ten points per correct answer. */
  function ScoreAfter(answers: seq<bool>): (r: int)
    ensures 0 <= r <= GamePointsCorrect * |answers|
  {
    if answers == [] then 0
    else NextScore(ScoreAfter(answers[..|answers| - 1]), answers[|answers| - 1])
  }

  /** A full game of ten correct answers scores 100; ten wrong ones score 0. */
  lemma PerfectGame()
    ensures ScoreAfter(seq(QuestionsPerGame, _ => true)) == 100
    ensures ScoreAfter(seq(QuestionsPerGame, _ => false)) == 0
  {
    AllCorrect(QuestionsPerGame);
    AllWrong(QuestionsPerGame);
  }

  lemma {:induction false} AllCorrect(n: nat)
    ensures ScoreAfter(seq(n, _ => true)) == GamePointsCorrect * n
  {
    if n > 0 {
      AllCorrect(n - 1);
      assert seq(n, _ => true)[..n - 1] == seq(n - 1, _ => true);
    }
  }

  lemma {:induction false} AllWrong(n: nat)
    ensures ScoreAfter(seq(n, _ => false)) == 0
  {
    if n > 0 {
      AllWrong(n - 1);
      assert seq(n, _ => false)[..n - 1] == seq(n - 1, _ => false);
    }
  }
}
