/**
 * The translator screen's state: text and Morse inputs and outputs, the
 * chosen cipher and key, and the saved history. Playback and flashing are
 * reduced to the Morse they would be handed.
 */
module TranslatorViewModel {
  import opened Wrappers
  import opened Strings
  import opened Ints
  import opened MorseTranslator
  import opened EncryptionManager

  datatype TranslatorUiState = TranslatorUiState(
    textInput: string,
    morseInput: string,
    morseOutput: string,
    textOutput: string,
    encryptionType: EncryptionType,
    encryptionKey: Key)

  /** `TranslatorUiState()` with its default arguments (the fields of this model). */
  function DefaultState(): (r: TranslatorUiState)
    ensures r.textInput == "" && r.morseInput == "" && r.morseOutput == "" && r.textOutput == ""
    ensures r.encryptionType == NoEncryption && r.encryptionKey == NoKey
  {
    TranslatorUiState("", "", "", "", NoEncryption, NoKey)
  }

  /** A saved translation, as `TranslationEntity` stores it (the generated id aside). */
  datatype TranslationRecord = TranslationRecord(
    originalText: string,
    morseCode: string,
    timestamp: int,
    isFavorite: bool,
    translationType: string,
    encryptionType: Option<string>,
    encryptionKey: Option<string>)

  /** `encryptionKey?.toString()`. */
  function KeyText(key: Key): (r: Option<string>)
    ensures r.None? <==> key.NoKey?
    ensures key.StrKey? ==> r == Some(key.s)
  {
    match key
    case NoKey => None
    case IntKey(n) => Some(IntToString(n))
    case StrKey(s) => Some(s)
    case OtherKey(shown) => Some(shown)
  }

  /**
   * The Morse `onTextInputChanged` shows: plain encoding for NONE, the
   * cipher pipeline otherwise. The special case is the pipeline with no
   * cipher, so both branches agree with `encryptAndMorse`.
   */
  function MorseFor(text: string, t: EncryptionType, key: Key): (r: string)
    ensures r == EncryptAndMorse(text, t, key)
    ensures IsValidMorse(r)
  {
    if t == NoEncryption then TextToMorse(text) else EncryptAndMorse(text, t, key)
  }

  /** The text `onMorseInputChanged` shows; likewise always `morseAndDecrypt`. */
  function TextFor(morse: string, t: EncryptionType, key: Key): (r: string)
    ensures r == MorseAndDecrypt(morse, t, key)
  {
    if t == NoEncryption then MorseToText(morse) else MorseAndDecrypt(morse, t, key)
  }

  /** Typing text and feeding its Morse back in shows the upper-cased text again, whatever the cipher. */
  lemma ScreenRoundTrip(text: string, t: EncryptionType, key: Key)
    requires !IsBlank(text) && AllInTable(Uppercase(text)) && Invertible(t, key)
    ensures TextFor(MorseFor(text, t, key), t, key) == Uppercase(text)
  {
    PipelineRoundTrip(text, t, key);
  }

  /** `morseOutput.ifEmpty { morseInput }`: what playback and flashing use. */
  function PlaybackMorse(s: TranslatorUiState): (r: string)
    ensures r == "" <==> s.morseOutput == "" && s.morseInput == ""
    ensures r in {s.morseOutput, s.morseInput}
    ensures s.morseOutput != "" ==> r == s.morseOutput
    ensures s.morseOutput == "" ==> r == s.morseInput
  {
    if s.morseOutput != "" then s.morseOutput else s.morseInput
  }

  /**
   * The record `saveToHistory` inserts, if any: the text (input, else
   * output) and the Morse (output, else input) must both be non-empty;
   * the direction is text-to-Morse exactly when there is text input.
   */
  function HistoryRecord(s: TranslatorUiState, now: int): (r: Option<TranslationRecord>)
    ensures r.Some? <==> (s.textInput != "" || s.textOutput != "") && (s.morseOutput != "" || s.morseInput != "")
    ensures r.Some? ==> r.value.originalText != "" && r.value.morseCode != "" && !r.value.isFavorite
    ensures r.Some? ==> (r.value.translationType == "TEXT_TO_MORSE" <==> s.textInput != "")
    ensures r.Some? ==> r.value.originalText in {s.textInput, s.textOutput} && r.value.morseCode in {s.morseOutput, s.morseInput}
    ensures r.Some? ==> r.value.encryptionType == Some(TypeName(s.encryptionType)) && r.value.encryptionKey == KeyText(s.encryptionKey)
    ensures r.Some? ==> r.value.originalText == (if s.textInput != "" then s.textInput else s.textOutput)
    ensures r.Some? ==> r.value.morseCode == PlaybackMorse(s) && r.value.timestamp == now
  {
    var text := if s.textInput != "" then s.textInput else s.textOutput;
    var morse := PlaybackMorse(s);
    if text != "" && morse != "" then
      Some(TranslationRecord(text, morse, now, false,
        if s.textInput != "" then "TEXT_TO_MORSE" else "MORSE_TO_TEXT",
        Some(TypeName(s.encryptionType)), KeyText(s.encryptionKey)))
    else None
  }

  class TranslatorViewModel {
    var state: TranslatorUiState
    /** The translations inserted through the repository, oldest first. */
    var history: seq<TranslationRecord>

    constructor()
      ensures state == DefaultState() && history == []
      ensures Valid()
    {
      state := DefaultState();
      history := [];
    }

    /** The Morse input only ever holds valid Morse, and every saved record has both text and Morse. */
    predicate Valid()
      reads this
    {
      IsValidMorse(state.morseInput)
      && forall i :: 0 <= i < |history| ==> history[i].originalText != "" && history[i].morseCode != ""
    }

    /** `onTextInputChanged`: the text is stored and its (possibly encrypted) Morse shown. */
    method OnTextInputChanged(text: string)
      requires Valid()
      modifies this
      ensures Valid()
      ensures state == old(state).(textInput := text,
        morseOutput := MorseFor(text, old(state).encryptionType, old(state).encryptionKey))
      ensures IsValidMorse(state.morseOutput)
      ensures history == old(history)
    {
      var morse := if state.encryptionType == NoEncryption then TextToMorse(text)
        else EncryptAndMorse(text, state.encryptionType, state.encryptionKey);
      state := state.(textInput := text, morseOutput := morse);
    }

    /** `onMorseInputChanged`: invalid Morse is ignored; valid Morse is stored and its (decrypted) text shown. */
    method OnMorseInputChanged(morse: string)
      requires Valid()
      modifies this
      ensures Valid()
      ensures !IsValidMorse(morse) ==> state == old(state)
      ensures IsValidMorse(morse) ==> state == old(state).(morseInput := morse,
        textOutput := TextFor(morse, old(state).encryptionType, old(state).encryptionKey))
      ensures history == old(history)
    {
      if IsValidMorse(morse) {
        var text := if state.encryptionType == NoEncryption then MorseToText(morse)
          else MorseAndDecrypt(morse, state.encryptionType, state.encryptionKey);
        state := state.(morseInput := morse, textOutput := text);
      }
    }

    /** `playMorseAudio`'s guard: the Morse handed to the player, or nothing when there is none to play. */
    method PlayMorseAudio() returns (played: Option<string>)
      ensures played.None? <==> state.morseOutput == "" && state.morseInput == ""
      ensures played.Some? ==> played.value == PlaybackMorse(state) && played.value != ""
    {
      var morse := PlaybackMorse(state);
      if morse == "" {
        return None;
      }
      played := Some(morse);
    }

    /** `flashMorse`'s guard, the same as playback's. */
    method FlashMorse() returns (flashed: Option<string>)
      ensures flashed.None? <==> state.morseOutput == "" && state.morseInput == ""
      ensures flashed.Some? ==> flashed.value == PlaybackMorse(state) && flashed.value != ""
    {
      var morse := PlaybackMorse(state);
      if morse == "" {
        return None;
      }
      flashed := Some(morse);
    }

    /**
     * `translateMorseToText`: the Morse goes into the text field and its
     * decoding into the Morse output field, as the Morse-mode screen
     * displays them.
     */
    method TranslateMorseToText(morse: string)
      requires Valid()
      modifies this
      ensures Valid()
      ensures state == old(state).(textInput := morse, morseOutput := MorseToText(morse))
      ensures history == old(history)
    {
      state := state.(textInput := morse, morseOutput := MorseToText(morse));
    }

    /** `saveToHistory`: one record appended when both chosen fields are non-empty, none otherwise. */
    method SaveToHistory(now: int)
      requires Valid()
      modifies this
      ensures Valid()
      ensures state == old(state)
      ensures var r := HistoryRecord(old(state), now);
        history == old(history) + (if r.Some? then [r.value] else [])
    {
      var text := if state.textInput != "" then state.textInput else state.textOutput;
      var morse := if state.morseOutput != "" then state.morseOutput else state.morseInput;
      if text != "" && morse != "" {
        var record := TranslationRecord(text, morse, now, false,
          if state.textInput != "" then "TEXT_TO_MORSE" else "MORSE_TO_TEXT",
          Some(TypeName(state.encryptionType)), KeyText(state.encryptionKey));
        history := history + [record];
      }
    }

    /** `setEncryptionType`: the type changes, and non-empty text input is re-encoded with it. */
    method SetEncryptionType(t: EncryptionType)
      requires Valid()
      modifies this
      ensures Valid()
      ensures state == old(state).(encryptionType := t,
        morseOutput := if old(state).textInput != "" then MorseFor(old(state).textInput, t, old(state).encryptionKey)
          else old(state).morseOutput)
      ensures history == old(history)
    {
      state := state.(encryptionType := t);
      if state.textInput != "" {
        OnTextInputChanged(state.textInput);
      }
    }

    /** `setEncryptionKey`: the key changes, and non-empty text input is re-encoded with it. */
    method SetEncryptionKey(key: Key)
      requires Valid()
      modifies this
      ensures Valid()
      ensures state == old(state).(encryptionKey := key,
        morseOutput := if old(state).textInput != "" then MorseFor(old(state).textInput, old(state).encryptionType, key)
          else old(state).morseOutput)
      ensures history == old(history)
    {
      state := state.(encryptionKey := key);
      if state.textInput != "" {
        OnTextInputChanged(state.textInput);
      }
    }

    /** `clearAll`: the screen returns to its default state; saved history stays. */
    method ClearAll()
      requires Valid()
      modifies this
      ensures Valid()
      ensures state == DefaultState()
      ensures history == old(history)
    {
      state := DefaultState();
    }
  }
}
