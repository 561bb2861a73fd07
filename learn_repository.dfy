/**
 * The per-character learning progress and its read-modify-write update.
 * The progress table is a map from character to record.
 */
module LearnRepository {
  import opened Wrappers

  datatype LearnProgress = LearnProgress(
    character: string,
    timesLearned: int,
    lastLearnedTimestamp: int,
    quizScore: int,
    totalQuizAttempts: int)

  /** A record whose counters are sensible: nothing negative, no more right answers than attempts. */
  predicate Sound(p: LearnProgress)
  {
    p.timesLearned >= 0 && 0 <= p.quizScore <= p.totalQuizAttempts
  }

  /**
   * The record `updateProgress` writes: the existing one with its
   * counters moved on, or a fresh one counting this event alone. `now` is
   * the clock.
   */
  function NextProgress(existing: Option<LearnProgress>, character: string, learned: bool,
                        quizCorrect: Option<bool>, now: int): (r: LearnProgress)
    ensures r.lastLearnedTimestamp == now
    ensures existing.Some? ==> r.character == existing.value.character
    ensures existing.None? ==> r.character == character
    ensures r.timesLearned == (if existing.Some? then existing.value.timesLearned else 0) + (if learned then 1 else 0)
    ensures r.quizScore == (if existing.Some? then existing.value.quizScore else 0) + (if quizCorrect == Some(true) then 1 else 0)
    ensures r.totalQuizAttempts == (if existing.Some? then existing.value.totalQuizAttempts else 0) + (if quizCorrect.Some? then 1 else 0)
  {
    match existing
    case Some(e) =>
      e.(timesLearned := if learned then e.timesLearned + 1 else e.timesLearned,
         lastLearnedTimestamp := now,
         quizScore := if quizCorrect == Some(true) then e.quizScore + 1
                      else if quizCorrect == Some(false) then e.quizScore
                      else e.quizScore,
         totalQuizAttempts := if quizCorrect.Some? then e.totalQuizAttempts + 1 else e.totalQuizAttempts)
    case None =>
      LearnProgress(character, if learned then 1 else 0, now,
        if quizCorrect == Some(true) then 1 else 0, if quizCorrect.Some? then 1 else 0)
  }

  /** Every update keeps a record sound, and the quiz score never overtakes the attempts. */
  lemma NextProgressSound(existing: Option<LearnProgress>, character: string, learned: bool,
                          quizCorrect: Option<bool>, now: int)
    requires existing.Some? ==> Sound(existing.value)
    ensures Sound(NextProgress(existing, character, learned, quizCorrect, now))
  {
  }

  class LearnRepository {
    /** The `learn_progress` table, keyed by its primary key `character`. */
    var store: map<string, LearnProgress>

    constructor()
      ensures store == map[]
      ensures Valid()
    {
      store := map[];
    }

    /** Every record sits under its own character and is sound. */
    predicate Valid()
      reads this
    {
      forall c :: c in store ==> store[c].character == c && Sound(store[c])
    }

    /** `getLearnedCharactersCount`'s query: the characters with `timesLearned > 0`. */
    function LearnedCharacters(): (r: set<string>)
      reads this
      ensures forall c :: c in r <==> c in store && store[c].timesLearned > 0
    {
      set c | c in store && store[c].timesLearned > 0
    }

    function LearnedCount(): nat
      reads this
    {
      |LearnedCharacters()|
    }

    /**
     * `updateProgress`: read the character's record, write it back moved on
     * (or insert a fresh one). No other record changes, and a learned
     * character stays learned.
     */
    method UpdateProgress(character: string, learned: bool, quizCorrect: Option<bool>, now: int)
      requires Valid()
      modifies this
      ensures Valid()
      ensures store == old(store)[character := NextProgress(
        if character in old(store) then Some(old(store)[character]) else None,
        character, learned, quizCorrect, now)]
      ensures store.Keys == old(store).Keys + {character}
      ensures old(LearnedCharacters()) <= LearnedCharacters()
      ensures learned ==> character in LearnedCharacters()
    {
      var existing := if character in store then Some(store[character]) else None;
      NextProgressSound(existing, character, learned, quizCorrect, now);
      var record := NextProgress(existing, character, learned, quizCorrect, now);
      store := store[character := record];
    }

    /** `resetProgress`: every record is deleted. */
    method ResetProgress()
      modifies this
      ensures Valid()
      ensures store == map[]
      ensures LearnedCount() == 0
    {
      store := map[];
      assert LearnedCharacters() == {};
    }
  }
}
