/**
 * The learning screen: the character list by category, playing a
 * character, and the quiz (start, answer, next, exit). Shuffling is given
 * its draws; the playback itself is left to the audio player.
 */
module LearnViewModel {
  import opened Wrappers
  import opened Strings
  import opened Constants
  import opened MorseTranslator
  import opened Shuffle
  import opened Seqs
  import LearnRepository

  datatype MorseCharacter = MorseCharacter(character: string, morse: string, category: string)

  datatype LearnUiState = LearnUiState(
    allCharacters: seq<MorseCharacter>,
    filteredCharacters: seq<MorseCharacter>,
    selectedCategory: string,
    playingCharacter: Option<string>,
    isQuizMode: bool,
    quizCharacters: seq<MorseCharacter>,
    currentQuizIndex: int,
    quizScore: int,
    quizAnswered: bool,
    lastAnswerCorrect: Option<bool>,
    quizComplete: bool)

  /** `LearnUiState()` with its default arguments. */
  function DefaultState(): (r: LearnUiState)
    ensures r.selectedCategory == "Letters" && !r.isQuizMode && r.currentQuizIndex == 0
    ensures r.allCharacters == [] && r.filteredCharacters == [] && r.quizCharacters == []
    ensures r.playingCharacter == None && r.quizScore == 0 && !r.quizAnswered
    ensures r.lastAnswerCorrect == None && !r.quizComplete
  {
    LearnUiState([], [], "Letters", None, false, [], 0, 0, false, None, false)
  }

  const LettersCategory: string := "Letters"
  const NumbersCategory: string := "Numbers"
  const PunctuationCategory: string := "Punctuation"

  /** One list entry per character: the character, `getCharMorse(char) ?: ""`, the category. */
  function Entries(chars: string, category: string): (r: seq<MorseCharacter>)
    ensures |r| == |chars|
    ensures forall i :: 0 <= i < |chars| ==> r[i] == Entry(chars[i], category)
  {
    seq(|chars|, i requires 0 <= i < |chars| => Entry(chars[i], category))
  }

  function Entry(c: char, category: string): MorseCharacter
  {
    MorseCharacter([c], GetCharMorse(c).GetOr(""), category)
  }

  /** The three lists `loadCharacters` builds: letters, digits and the 18 punctuation marks. */
  function LetterEntries(): seq<MorseCharacter> { Entries(Letters, LettersCategory) }
  function NumberEntries(): seq<MorseCharacter> { Entries(Digits, NumbersCategory) }
  function PunctuationEntries(): seq<MorseCharacter> { Entries(Punctuation, PunctuationCategory) }

  function AllEntries(): seq<MorseCharacter>
  {
    LetterEntries() + NumberEntries() + PunctuationEntries()
  }

  /**
   * `loadCharacters`, as the state it leaves: all 54 entries, letters, then
   * digits, then punctuation; the filtered list is the letters.
   */
  function LoadCharacters(s: LearnUiState): (r: LearnUiState)
    ensures |r.allCharacters| == TotalLetters + TotalNumbers + TotalPunctuation
    ensures r.filteredCharacters == r.allCharacters[..TotalLetters]
    ensures r == s.(allCharacters := AllEntries(), filteredCharacters := LetterEntries())
  {
    TableCounts();
    PrefixOfConcat(LetterEntries(), NumberEntries(), PunctuationEntries());
    s.(allCharacters := AllEntries(), filteredCharacters := LetterEntries())
  }

  /** Every listed entry carries a real code, and that code decodes back to the entry's character. */
  lemma EntriesDecode(i: int)
    requires 0 <= i < |AllEntries()|
    ensures AllEntries()[i].morse != ""
    ensures MorseToText(AllEntries()[i].morse) == AllEntries()[i].character
  {
    TableCounts();
    ConcatIndex(LetterEntries(), NumberEntries(), PunctuationEntries(), i);
    ConcatIndex(Letters, Digits, Punctuation, i);
    PrefixIndex(Letters + Digits + Punctuation, " ", i);
    KeyHasCode(i);
    if i < 26 {
      EntryDecodes(Letters[i], LettersCategory, AllEntries()[i]);
    } else if i < 36 {
      EntryDecodes(Digits[i - 26], NumbersCategory, AllEntries()[i]);
    } else {
      PunctuationClass(i - 36);
      EntryDecodes(Punctuation[i - 36], PunctuationCategory, AllEntries()[i]);
    }
  }

  lemma EntryDecodes(k: char, category: string, e: MorseCharacter)
    requires CharToMorse(k).Some? && k != ' ' && !IsLower(k)
    requires e == Entry(k, category)
    ensures e.morse != "" && MorseToText(e.morse) == e.character
  {
    CodeShape(k);
    SingleCodeDecodes(k);
  }

  /** `allCharacters.filter { it.category == category }`. */
  function FilterCategory(entries: seq<MorseCharacter>, category: string): (r: seq<MorseCharacter>)
    ensures |r| <= |entries|
  {
    if entries == [] then []
    else (if entries[0].category == category then [entries[0]] else []) + FilterCategory(entries[1..], category)
  }

  /** The filter keeps exactly the entries of the category. */
  lemma {:induction false} FilterMembers(entries: seq<MorseCharacter>, category: string)
    ensures forall e :: e in FilterCategory(entries, category) <==> e in entries && e.category == category
  {
    if entries != [] {
      FilterMembers(entries[1..], category);
      assert entries == [entries[0]] + entries[1..];
    }
  }

  lemma {:induction false} FilterAppend(a: seq<MorseCharacter>, b: seq<MorseCharacter>, category: string)
    ensures FilterCategory(a + b, category) == FilterCategory(a, category) + FilterCategory(b, category)
  {
    if a == [] {
      assert a + b == b;
    } else {
      var ab := a + b;
      assert ab[0] == a[0] && ab[1..] == a[1..] + b;
      FilterAppend(a[1..], b, category);
      var head := if a[0].category == category then [a[0]] else [];
      assert FilterCategory(ab, category) == head + FilterCategory(a[1..] + b, category);
      assert FilterCategory(a, category) == head + FilterCategory(a[1..], category);
    }
  }

  lemma {:induction false} FilterEntries(chars: string, own: string, category: string)
    ensures FilterCategory(Entries(chars, own), category) == (if own == category then Entries(chars, own) else [])
  {
    if chars != [] {
      FilterEntries(chars[1..], own, category);
      var e := Entries(chars, own);
      assert e[1..] == Entries(chars[1..], own);
      assert e[0].category == own;
    }
  }

  /** Selecting a category yields exactly that category's list, in order; an unknown one yields nothing. */
  lemma SelectCategoryLists(category: string)
    ensures category == LettersCategory ==> FilterCategory(AllEntries(), category) == LetterEntries()
    ensures category == NumbersCategory ==> FilterCategory(AllEntries(), category) == NumberEntries()
    ensures category == PunctuationCategory ==> FilterCategory(AllEntries(), category) == PunctuationEntries()
    ensures category !in {LettersCategory, NumbersCategory, PunctuationCategory} ==> FilterCategory(AllEntries(), category) == []
  {
    FilterAppend(LetterEntries() + NumberEntries(), PunctuationEntries(), category);
    FilterAppend(LetterEntries(), NumberEntries(), category);
    FilterEntries(Letters, LettersCategory, category);
    FilterEntries(Digits, NumbersCategory, category);
    FilterEntries(Punctuation, PunctuationCategory, category);
    ConcatEmpty(LetterEntries(), NumberEntries(), PunctuationEntries());
    assert LettersCategory != NumbersCategory && LettersCategory != PunctuationCategory
      && NumbersCategory != PunctuationCategory by {
      assert LettersCategory[0] != NumbersCategory[0] && LettersCategory[0] != PunctuationCategory[0]
        && NumbersCategory[0] != PunctuationCategory[0];
    }
  }

  /** `selectCategory`, on the state: the category and its filtered list. */
  function SelectCategory(s: LearnUiState, category: string): (r: LearnUiState)
    ensures r.selectedCategory == category
    ensures forall e :: e in r.filteredCharacters <==> e in s.allCharacters && e.category == category
    ensures r.(selectedCategory := s.selectedCategory, filteredCharacters := s.filteredCharacters) == s
  {
    FilterMembers(s.allCharacters, category);
    s.(selectedCategory := category, filteredCharacters := FilterCategory(s.allCharacters, category))
  }

  class LearnViewModel {
    var state: LearnUiState
    const repository: LearnRepository.LearnRepository

    /** The view model starts by loading the characters. */
    constructor(repository: LearnRepository.LearnRepository)
      requires repository.Valid()
      ensures state == LoadCharacters(DefaultState())
      ensures this.repository == repository
      ensures Valid()
    {
      this.repository := repository;
      state := LoadCharacters(DefaultState());
    }

    /** In quiz mode the index points at a quiz character; the progress store is consistent. */
    predicate Valid()
      reads this, repository
    {
      0 <= state.currentQuizIndex
      && (state.isQuizMode ==> state.currentQuizIndex < |state.quizCharacters|)
      && repository.Valid()
    }

    method DoSelectCategory(category: string)
      requires Valid()
      modifies this
      ensures Valid()
      ensures state == SelectCategory(old(state), category)
    {
      state := SelectCategory(state, category);
    }

    /**
     * `playCharacter`: nothing for an empty string or a first character
     * without a code; otherwise, once played, the character counts as
     * learned.
     */
    method PlayCharacter(character: string, now: int)
      requires Valid()
      modifies repository
      ensures Valid()
      ensures (character == [] || GetCharMorse(character[0]).None?) ==> repository.store == old(repository.store)
      ensures character != [] && GetCharMorse(character[0]).Some? ==>
        character in repository.LearnedCharacters()
        && repository.store.Keys == old(repository.store).Keys + {character}
        && repository.store == old(repository.store)[character := LearnRepository.NextProgress(
          if character in old(repository.store) then Some(old(repository.store)[character]) else None,
          character, true, None, now)]
      ensures old(repository.LearnedCharacters()) <= repository.LearnedCharacters()
    {
      if character == [] {
        return;
      }
      var morse := GetCharMorse(character[0]);
      if morse.None? {
        return;
      }
      repository.UpdateProgress(character, true, None, now);
    }

    /**
     * `startQuiz`: the filtered list, shuffled with `draws`; nothing happens
     * when it is empty, otherwise the quiz starts at its first character
     * with no score.
     */
    method StartQuiz(draws: seq<int>)
      requires Valid() && ValidDraws(|state.filteredCharacters|, draws)
      modifies this
      ensures Valid()
      ensures old(state).filteredCharacters == [] ==> state == old(state)
      ensures old(state).filteredCharacters != [] ==>
        multiset(state.quizCharacters) == multiset(old(state).filteredCharacters)
        && state == old(state).(isQuizMode := true, quizCharacters := state.quizCharacters,
          currentQuizIndex := 0, quizScore := 0, quizAnswered := false)
    {
      var characters := Shuffled(state.filteredCharacters, draws);
      if characters == [] {
        return;
      }
      state := state.(isQuizMode := true, quizCharacters := characters, currentQuizIndex := 0,
        quizScore := 0, quizAnswered := false);
    }

    /**
     * `submitQuizAnswer`: nothing when the index is past the quiz list;
     * otherwise the score goes up by one exactly when the answer matches the
     * character ignoring case, the attempt is recorded in the progress store,
     * and the question is marked answered.
     */
    method SubmitQuizAnswer(answer: string, now: int)
      requires Valid()
      modifies this, repository
      ensures Valid()
      ensures old(state).currentQuizIndex >= |old(state).quizCharacters| ==>
        state == old(state) && repository.store == old(repository.store)
      ensures old(state).currentQuizIndex < |old(state).quizCharacters| ==>
        var current := old(state).quizCharacters[old(state).currentQuizIndex];
        var isCorrect := EqualsIgnoreCase(answer, current.character);
        state == old(state).(quizScore := old(state).quizScore + (if isCorrect then 1 else 0),
          quizAnswered := true, lastAnswerCorrect := Some(isCorrect))
        && repository.store == old(repository.store)[current.character := LearnRepository.NextProgress(
          if current.character in old(repository.store) then Some(old(repository.store)[current.character]) else None,
          current.character, false, Some(isCorrect), now)]
    {
      if state.currentQuizIndex >= |state.quizCharacters| {
        return;
      }
      var current := state.quizCharacters[state.currentQuizIndex];
      var isCorrect := EqualsIgnoreCase(answer, current.character);
      repository.UpdateProgress(current.character, false, Some(isCorrect), now);
      state := state.(quizScore := if isCorrect then state.quizScore + 1 else state.quizScore,
        quizAnswered := true, lastAnswerCorrect := Some(isCorrect));
    }

    /**
     * `nextQuizQuestion`: past the last character the quiz ends and is
     * marked complete; otherwise the index moves on by one and the answer
     * flags are cleared.
     */
    method NextQuizQuestion()
      requires Valid()
      modifies this
      ensures Valid()
      ensures old(state).currentQuizIndex + 1 >= |old(state).quizCharacters| ==>
        state == old(state).(isQuizMode := false, quizComplete := true)
      ensures old(state).currentQuizIndex + 1 < |old(state).quizCharacters| ==>
        state == old(state).(currentQuizIndex := old(state).currentQuizIndex + 1,
          quizAnswered := false, lastAnswerCorrect := None)
    {
      var nextIndex := state.currentQuizIndex + 1;
      if nextIndex >= |state.quizCharacters| {
        state := state.(isQuizMode := false, quizComplete := true);
      } else {
        state := state.(currentQuizIndex := nextIndex, quizAnswered := false, lastAnswerCorrect := None);
      }
    }

    /** `exitQuiz`: quiz mode and completion are cleared, and nothing else. */
    method ExitQuiz()
      requires Valid()
      modifies this
      ensures Valid()
      ensures state == old(state).(isQuizMode := false, quizComplete := false)
    {
      state := state.(isQuizMode := false, quizComplete := false);
    }
  }

  /** A quiz never scores more than one point per question answered. */
  function QuizScore(answers: seq<bool>): (r: nat)
    ensures r <= |answers|
    ensures r == |answers| <==> forall i :: 0 <= i < |answers| ==> answers[i]
  {
    if answers == [] then 0
    else QuizScore(answers[..|answers| - 1]) + (if answers[|answers| - 1] then 1 else 0)
  }
}
