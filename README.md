# Morse code translator, ciphers and screen state machines

A Dafny model of the logic core of an Android Morse code app:

- the fixed character/code table and its inverse (`Constants`);
- the translator: text to Morse, Morse to text, validation,
  single-character lookups, the tokenizer and the playback timing
  sequence (`MorseTranslator`);
- the cipher layer placed in front of the translator: Caesar shift,
  reversal, keyed substitution, Caesar followed by reversal, and the
  encrypt-then-encode / decode-then-decrypt glue (`EncryptionManager`);
- the older string extensions: a second Morse conversion, an
  unnormalised Caesar cipher, `Int.clamp` and the relative-time label
  (`Extensions`);
- the state machines of the translator screen (`TranslatorViewModel`),
  the games screen (`GamesViewModel`) and the learning screen
  (`LearnViewModel`), and the per-character progress store
  (`LearnRepository`).

Supporting modules: `Strings` (ASCII case mapping, the JVM whitespace set
behind `isBlank`/`trim`, `split(" ")`, `joinToString`, `indexOf`), `Ints`
(32-bit `Int` negation and wrap-around, Kotlin's truncating `/` and `%`),
`Shuffle` (`shuffled()` as a Fisher-Yates walk over caller-supplied draws,
`random()` as a caller-supplied index), `Seqs` (sequence slicing facts) and
`Wrappers` (`Option`).

The pure files become functions with lemmas about them. The view models
and the repository become classes whose `state` (or `store`, `history`)
field each method reassigns, with the whole new state in its `ensures`.
The clock, the random draws and the speed scaling are parameters.

Translation is lossy by design: `textToMorse` drops unmapped characters
and `morseToText` drops unknown tokens; neither fails on any input.

## Model

| member | source | states |
|---|---|---|
| Constants.TableCounts | app/src/main/java/com/kreggscode/morsecode/util/Constants.kt:5-19 | the table's keys are the 26 upper-case letters, the 10 digits, 18 punctuation marks (neither letters nor digits) and the space, 55 distinct keys, matching TOTAL_LETTERS/TOTAL_NUMBERS/TOTAL_PUNCTUATION |
| Constants.TableDomain | app/src/main/java/com/kreggscode/morsecode/util/Constants.kt:5-19 | a character has a code exactly when it is one of the listed keys |
| Constants.CodeShape | app/src/main/java/com/kreggscode/morsecode/util/Constants.kt:5-18 | the space maps to "/", every other code is a non-empty string of dots and dashes (so no code contains a space or "/") |
| Constants.CodesDistinct | app/src/main/java/com/kreggscode/morsecode/util/Constants.kt:5-19 | no two keys share a code |
| Constants.LowercaseAbsent | app/src/main/java/com/kreggscode/morsecode/util/Constants.kt:6-11 | no lower-case letter is a key |
| Constants.MorseToCharInverse | app/src/main/java/com/kreggscode/morsecode/util/Constants.kt:21 | the reversed map built by `associate` sends a code to c exactly when the table sends c to that code |
| Constants.MorseToCharSome | app/src/main/java/com/kreggscode/morsecode/util/Constants.kt:21 | every code the reversed map knows comes from the table |
| Constants.AssociateFinds | app/src/main/java/com/kreggscode/morsecode/util/Constants.kt:21 | building the reversed map over any key list containing c finds c under c's code |
| Constants.AssociateSound | app/src/main/java/com/kreggscode/morsecode/util/Constants.kt:21 | whatever the reversed map returns for a code has that code in the table |
| Constants.TableKeysDistinct | app/src/main/java/com/kreggscode/morsecode/util/Constants.kt:5-19 | the key list has no repeats |
| Constants.TimingRatios | app/src/main/java/com/kreggscode/morsecode/util/Constants.kt:24-28 | dash = 3 dots, letter gap = 3 dots, word gap = 7 dots, symbol gap = 1 dot, as the encyclopedia text describes |
| Constants.LettersAt | app/src/main/java/com/kreggscode/morsecode/util/Constants.kt:6-11 | the letter keys are A to Z in order |
| Constants.DigitsAt | app/src/main/java/com/kreggscode/morsecode/util/Constants.kt:12-13 | the digit keys are 0 to 9 in order |
| MorseTranslator.TextToMorse | app/src/main/java/com/kreggscode/morsecode/domain/MorseTranslator.kt:10-17 | blank input (including " ") gives "" |
| MorseTranslator.TextToMorseCodes | app/src/main/java/com/kreggscode/morsecode/domain/MorseTranslator.kt:13-16 | for non-blank text the result is the codes of the upper-cased characters that have one, in order, joined by one space |
| MorseTranslator.MapCodes | app/src/main/java/com/kreggscode/morsecode/domain/MorseTranslator.kt:14 | one lookup per character, "" where the table has no code |
| MorseTranslator.NonEmpty | app/src/main/java/com/kreggscode/morsecode/domain/MorseTranslator.kt:15 | the filter keeps only non-empty strings and never lengthens the list |
| MorseTranslator.NonEmptyAppend | app/src/main/java/com/kreggscode/morsecode/domain/MorseTranslator.kt:111 | filtering a concatenation is the concatenation of the filtered halves, so the filter decides each token on its own |
| MorseTranslator.NonEmptySingle | app/src/main/java/com/kreggscode/morsecode/domain/MorseTranslator.kt:111 | a single token survives exactly when it is not empty |
| MorseTranslator.NonEmptyKeeps | app/src/main/java/com/kreggscode/morsecode/domain/MorseTranslator.kt:111 | a list of non-empty tokens passes the filter unchanged |
| MorseTranslator.NonEmptyMapCodes | app/src/main/java/com/kreggscode/morsecode/domain/MorseTranslator.kt:14-15 | dropping the empty lookups leaves exactly the codes of the known characters |
| MorseTranslator.KnownCodesAll | app/src/main/java/com/kreggscode/morsecode/domain/MorseTranslator.kt:14-15 | when every character is in the table nothing is dropped: one code per character |
| MorseTranslator.TextToMorseIsValid | app/src/main/java/com/kreggscode/morsecode/domain/MorseTranslator.kt:10-17 | every encoding passes `isValidMorse` |
| MorseTranslator.MorseToText | app/src/main/java/com/kreggscode/morsecode/domain/MorseTranslator.kt:22-33 | blank input gives "" |
| MorseTranslator.MorseToTextByTokens | app/src/main/java/com/kreggscode/morsecode/domain/MorseTranslator.kt:23-32 | decoding is the lookup of `splitMorseIntoChars`' tokens: empty tokens from repeated spaces are ignored, unknown tokens dropped |
| MorseTranslator.DecodeNonEmpty | app/src/main/java/com/kreggscode/morsecode/domain/MorseTranslator.kt:27-31 | removing empty tokens does not change the decoded text |
| MorseTranslator.TextRoundTrip | app/src/main/java/com/kreggscode/morsecode/domain/MorseTranslator.kt:10-33 | for non-blank text whose upper-cased characters are all keys, decoding the encoding gives the upper-cased text back, spaces included |
| MorseTranslator.SosEncodes | app/src/main/java/com/kreggscode/morsecode/domain/MorseTranslator.kt:10-17 | "SOS" encodes to "... --- ..." |
| MorseTranslator.SosDecodes | app/src/main/java/com/kreggscode/morsecode/domain/MorseTranslator.kt:22-33 | "... --- ..." decodes to "SOS" |
| MorseTranslator.WordExample | app/src/main/java/com/kreggscode/morsecode/domain/MorseTranslator.kt:10-17 | "Hi 2#" encodes to ".... .. / ..---": upper-cased, the space becomes "/", "#" is dropped |
| MorseTranslator.MatchesMorsePattern | app/src/main/java/com/kreggscode/morsecode/domain/MorseTranslator.kt:41-42 | the pattern `^[.\-/ ]+$` holds exactly for a non-empty string of '.', '-', '/' and ' ' |
| MorseTranslator.IsValidMorse | app/src/main/java/com/kreggscode/morsecode/domain/MorseTranslator.kt:38-43 | true exactly when the input is blank or every character is '.', '-', '/' or ' ' |
| MorseTranslator.GetCharMorse | app/src/main/java/com/kreggscode/morsecode/domain/MorseTranslator.kt:48-50 | a code found for a character decodes back to the upper-cased character |
| MorseTranslator.GetCharMorseDomain | app/src/main/java/com/kreggscode/morsecode/domain/MorseTranslator.kt:48-50 | a code is found exactly when the upper-cased character is a key |
| MorseTranslator.GetCharMorseIgnoresCase | app/src/main/java/com/kreggscode/morsecode/domain/MorseTranslator.kt:48-50 | a lower-case letter gets the same code as its upper-case form, and has one |
| MorseTranslator.GetMorseChar | app/src/main/java/com/kreggscode/morsecode/domain/MorseTranslator.kt:55-57 | a character found for a code has that code; none found means no character has it |
| MorseTranslator.GetMorseTiming | app/src/main/java/com/kreggscode/morsecode/domain/MorseTranslator.kt:62-105 | the loop builds exactly the timing sequence of the whole string |
| MorseTranslator.TimingsAppend | app/src/main/java/com/kreggscode/morsecode/domain/MorseTranslator.kt:65-102 | the timing sequence of a concatenation is the concatenation of the timing sequences (input order is kept) |
| MorseTranslator.TimingsLength | app/src/main/java/com/kreggscode/morsecode/domain/MorseTranslator.kt:62-105 | the sequence has 2·(dots + dashes) + spaces + slashes units |
| MorseTranslator.MarksFollowedByGap | app/src/main/java/com/kreggscode/morsecode/domain/MorseTranslator.kt:65-101 | every dot or dash is immediately followed by a symbol gap |
| MorseTranslator.UnscaledDurations | app/src/main/java/com/kreggscode/morsecode/domain/MorseTranslator.kt:67-101 | with multiplier 1 every duration is its base constant |
| MorseTranslator.DotTimingExample | app/src/main/java/com/kreggscode/morsecode/domain/MorseTranslator.kt:65-101 | "." gives [DOT 100, SYMBOL_GAP 100] |
| MorseTranslator.SplitMorseIntoChars | app/src/main/java/com/kreggscode/morsecode/domain/MorseTranslator.kt:110-112 | every token is non-empty and contains no space |
| MorseTranslator.SplitMorseJoin | app/src/main/java/com/kreggscode/morsecode/domain/MorseTranslator.kt:110-112 | non-empty tokens without whitespace, joined by single spaces, are tokenized back into exactly those tokens |
| MorseTranslator.SplitMorseKeepsSymbols | app/src/main/java/com/kreggscode/morsecode/domain/MorseTranslator.kt:110-112 | the tokens, concatenated in order, are the trimmed input without its spaces: nothing else is lost or reordered |
| MorseTranslator.SingleCodeDecodes | app/src/main/java/com/kreggscode/morsecode/domain/MorseTranslator.kt:22-33 | a single code decodes to its character alone |
| EncryptionManager.TypeName | app/src/main/java/com/kreggscode/morsecode/domain/EncryptionManager.kt:142-148 | the stored enum name is a non-empty upper-case word |
| EncryptionManager.TypeNamesDistinct | app/src/main/java/com/kreggscode/morsecode/domain/EncryptionManager.kt:142-148 | different encryption types have different names |
| EncryptionManager.ShiftOf | app/src/main/java/com/kreggscode/morsecode/domain/EncryptionManager.kt:117 | an `Int` key is the shift; any other key falls back to 3 |
| EncryptionManager.KeyTextOf | app/src/main/java/com/kreggscode/morsecode/domain/EncryptionManager.kt:119 | a `String` key is the key text; any other key becomes "" |
| EncryptionManager.CaesarEncrypt | app/src/main/java/com/kreggscode/morsecode/domain/EncryptionManager.kt:10-23 | same length, each letter rotated by the shift within its own case's alphabet, other characters unchanged |
| EncryptionManager.CaesarDecrypt | app/src/main/java/com/kreggscode/morsecode/domain/EncryptionManager.kt:28-30 | encryption by the 32-bit negation of the shift; letters stay letters of the same case |
| EncryptionManager.CaesarRoundTrip | app/src/main/java/com/kreggscode/morsecode/domain/EncryptionManager.kt:10-30 | decrypting undoes encrypting and encrypting undoes decrypting, for every shift except Int.MIN_VALUE |
| EncryptionManager.CaesarMinValueShift | app/src/main/java/com/kreggscode/morsecode/domain/EncryptionManager.kt:28-30 | at shift Int.MIN_VALUE the negation wraps and "A" comes back as "E" |
| EncryptionManager.CaesarPeriodic | app/src/main/java/com/kreggscode/morsecode/domain/EncryptionManager.kt:11 | shifts s and s + 26 encrypt alike |
| EncryptionManager.CaesarExample | app/src/main/java/com/kreggscode/morsecode/domain/EncryptionManager.kt:10-23 | "Ab z!" with shift 3 is "De c!" |
| EncryptionManager.CaesarNegativeExample | app/src/main/java/com/kreggscode/morsecode/domain/EncryptionManager.kt:11 | a negative shift is normalised: "D" with shift -29 is "A" |
| EncryptionManager.ReverseEncrypt | app/src/main/java/com/kreggscode/morsecode/domain/EncryptionManager.kt:35-37 | same length, character i is character n-1-i of the input |
| EncryptionManager.ReverseDecrypt | app/src/main/java/com/kreggscode/morsecode/domain/EncryptionManager.kt:42-44 | reversing its result gives the input back |
| EncryptionManager.ReverseInvolution | app/src/main/java/com/kreggscode/morsecode/domain/EncryptionManager.kt:35-44 | decryption undoes encryption |
| EncryptionManager.CustomKeyEncrypt | app/src/main/java/com/kreggscode/morsecode/domain/EncryptionManager.kt:49-68 | unchanged for a key shorter than 26; otherwise each letter becomes the upper-cased key character at its alphabet position, lower-cased for a lower-case letter, and other characters stay |
| EncryptionManager.CustomKeyDecrypt | app/src/main/java/com/kreggscode/morsecode/domain/EncryptionManager.kt:73-92 | unchanged for a key shorter than 26; otherwise a letter found in the upper-cased key becomes the alphabet letter at its first position there (no earlier position holds it; case kept), and anything else stays |
| EncryptionManager.UnsubstituteMeaning | app/src/main/java/com/kreggscode/morsecode/domain/EncryptionManager.kt:79-90 | the per-character decryption rule: the letter maps to the first key position holding it (the `indexOf` result), and the `index == -1` case falls through unchanged |
| EncryptionManager.SubstituteMeaning | app/src/main/java/com/kreggscode/morsecode/domain/EncryptionManager.kt:55-66 | the per-character encryption rule |
| EncryptionManager.CustomKeyRoundTrip | app/src/main/java/com/kreggscode/morsecode/domain/EncryptionManager.kt:49-92 | when the first 26 upper-cased key characters are a permutation of A to Z, decryption and encryption undo each other |
| EncryptionManager.CustomKeyLetterPreserving | app/src/main/java/com/kreggscode/morsecode/domain/EncryptionManager.kt:49-92 | with such a key both directions keep each character's case class |
| EncryptionManager.CombinedEncrypt | app/src/main/java/com/kreggscode/morsecode/domain/EncryptionManager.kt:97-100 | character i is character n-1-i of the input, Caesar-rotated |
| EncryptionManager.CombinedDecrypt | app/src/main/java/com/kreggscode/morsecode/domain/EncryptionManager.kt:105-108 | character i is character n-1-i of the input, rotated back |
| EncryptionManager.CombinedRoundTrip | app/src/main/java/com/kreggscode/morsecode/domain/EncryptionManager.kt:97-108 | the two undo each other for every shift except Int.MIN_VALUE |
| EncryptionManager.CombinedExample | app/src/main/java/com/kreggscode/morsecode/domain/EncryptionManager.kt:97-100 | "HELLO" with shift 5 is "TQQJM" |
| EncryptionManager.EncryptAndMorse | app/src/main/java/com/kreggscode/morsecode/domain/EncryptionManager.kt:113-123 | the result is always valid Morse |
| EncryptionManager.MorseAndDecrypt | app/src/main/java/com/kreggscode/morsecode/domain/EncryptionManager.kt:128-139 | with no cipher it is exactly `morseToText` |
| EncryptionManager.KeyFallbacks | app/src/main/java/com/kreggscode/morsecode/domain/EncryptionManager.kt:113-139 | NONE is plain encoding/decoding; CAESAR and COMBINED without an `Int` key use shift 3 both ways; CUSTOM without a `String` key is plain encoding/decoding |
| EncryptionManager.DecryptUpperEncrypt | app/src/main/java/com/kreggscode/morsecode/domain/EncryptionManager.kt:113-139 | each invertible cipher commutes with the upper-casing done by the encoder, so decrypting the upper-cased ciphertext gives the upper-cased text |
| EncryptionManager.PipelineRoundTrip | app/src/main/java/com/kreggscode/morsecode/domain/EncryptionManager.kt:113-139 | decode-then-decrypt undoes encrypt-then-encode on non-blank text in the table, for every invertible cipher choice |
| Extensions.ToMorseCode | app/src/main/java/com/kreggscode/morsecode/util/Extensions.kt:10-14 | empty input gives "" |
| Extensions.ToMorseCodeSegments | app/src/main/java/com/kreggscode/morsecode/util/Extensions.kt:10-14 | nothing is dropped: one space-separated segment per input character, its code or "" when unmapped |
| Extensions.FromToMorseCode | app/src/main/java/com/kreggscode/morsecode/util/Extensions.kt:10-20 | decoding the conversion gives the upper-cased input without its unmapped characters; with all characters in the table, exactly the upper-cased input |
| Extensions.TrailingTab | app/src/main/java/com/kreggscode/morsecode/util/Extensions.kt:16-20 | `fromMorseCode` does not trim: a code plus a tab decodes to "", where `morseToText` gives the character |
| Extensions.CaesarEncrypt | app/src/main/java/com/kreggscode/morsecode/util/Extensions.kt:22-30 | same length, non-letters unchanged; for shifts from 0 to Int.MAX_VALUE − 25 it agrees with the normalising cipher |
| Extensions.CaesarDecrypt | app/src/main/java/com/kreggscode/morsecode/util/Extensions.kt:32-34 | same length; for shifts 0 to 26 it agrees with the normalising decryption |
| Extensions.CaesarRoundTrip | app/src/main/java/com/kreggscode/morsecode/util/Extensions.kt:22-34 | for shifts 0 to 26 decryption undoes encryption |
| Extensions.CaesarNegativeShift | app/src/main/java/com/kreggscode/morsecode/util/Extensions.kt:22-30 | shift -1 turns "A" into "@", a non-letter |
| Extensions.CaesarLargeShift | app/src/main/java/com/kreggscode/morsecode/util/Extensions.kt:22-34 | shift 30 encrypts "W" to "A" but decrypts it to "=" |
| Extensions.Clamp | app/src/main/java/com/kreggscode/morsecode/util/Extensions.kt:87-93 | inside [min, max] when the bounds are ordered, the value itself when already inside, and always one of value, min, max |
| Extensions.ClampProperties | app/src/main/java/com/kreggscode/morsecode/util/Extensions.kt:87-93 | clamping is idempotent and monotone |
| Extensions.ToTimeAgo | app/src/main/java/com/kreggscode/morsecode/util/Extensions.kt:46-57 | under a minute gives "Just now"; a week or more gives the formatted date |
| Extensions.TimeAgoBuckets | app/src/main/java/com/kreggscode/morsecode/util/Extensions.kt:46-56 | within a week the label is "N min ago" (1..59), "N hours ago" (1..23) or "N days ago" (1..6), N the truncated quotient |
| Strings.NatToStringValue | app/src/main/java/com/kreggscode/morsecode/util/Extensions.kt:52-54 | the decimal text of a number denotes that number (and has no leading zero, per `NatToString`) |
| Extensions.TimeAgoExample | app/src/main/java/com/kreggscode/morsecode/util/Extensions.kt:46-57 | 30 s is "Just now", 150 s is "2 min ago", a week is the date |
| Shuffle.Shuffled | app/src/main/java/com/kreggscode/morsecode/viewmodel/LearnViewModel.kt:88 | the shuffle is a permutation of its input |
| Shuffle.Swap | app/src/main/java/com/kreggscode/morsecode/viewmodel/GamesViewModel.kt:81 | one exchange of two positions, a permutation |
| TranslatorViewModel.DefaultState | app/src/main/java/com/kreggscode/morsecode/viewmodel/TranslatorViewModel.kt:189-201 | all four text fields empty, no encryption, no key |
| TranslatorViewModel.KeyText | app/src/main/java/com/kreggscode/morsecode/viewmodel/TranslatorViewModel.kt:151 | `key?.toString()`: none exactly for a null key, the string itself for a `String` key |
| TranslatorViewModel.MorseFor | app/src/main/java/com/kreggscode/morsecode/viewmodel/TranslatorViewModel.kt:36-42 | the shown Morse is `encryptAndMorse` of the input and is valid Morse |
| TranslatorViewModel.TextFor | app/src/main/java/com/kreggscode/morsecode/viewmodel/TranslatorViewModel.kt:50-57 | the shown text is `morseAndDecrypt` of the input |
| TranslatorViewModel.ScreenRoundTrip | app/src/main/java/com/kreggscode/morsecode/viewmodel/TranslatorViewModel.kt:31-61 | typing the screen's Morse output into its Morse input shows the upper-cased text again, for every invertible cipher choice |
| TranslatorViewModel.PlaybackMorse | app/src/main/java/com/kreggscode/morsecode/viewmodel/TranslatorViewModel.kt:63-65 | the Morse to play is the output when that is non-empty and the input otherwise, and is empty exactly when both are |
| TranslatorViewModel.HistoryRecord | app/src/main/java/com/kreggscode/morsecode/viewmodel/TranslatorViewModel.kt:139-156 | a record exists exactly when some text and some Morse are present; its text is the input when non-empty and the output otherwise, its Morse is `PlaybackMorse`, its timestamp is the clock reading, it is not a favourite, its type TEXT_TO_MORSE exactly when the text input is non-empty, and it carries the type's name and the key text |
| TranslatorViewModel.TranslatorViewModel.constructor | app/src/main/java/com/kreggscode/morsecode/viewmodel/TranslatorViewModel.kt:28 | the screen starts in the default state with no history |
| TranslatorViewModel.TranslatorViewModel.OnTextInputChanged | app/src/main/java/com/kreggscode/morsecode/viewmodel/TranslatorViewModel.kt:31-44 | only the text input and the Morse output change, the latter to the (possibly encrypted) encoding |
| TranslatorViewModel.TranslatorViewModel.OnMorseInputChanged | app/src/main/java/com/kreggscode/morsecode/viewmodel/TranslatorViewModel.kt:46-61 | invalid Morse leaves the whole state unchanged; valid Morse sets the Morse input and the (possibly decrypted) text output, nothing else |
| TranslatorViewModel.TranslatorViewModel.PlayMorseAudio | app/src/main/java/com/kreggscode/morsecode/viewmodel/TranslatorViewModel.kt:63-65 | nothing is played exactly when both Morse fields are empty; otherwise the output or else the input is played |
| TranslatorViewModel.TranslatorViewModel.FlashMorse | app/src/main/java/com/kreggscode/morsecode/viewmodel/TranslatorViewModel.kt:109-111 | the same guard for the flashlight |
| TranslatorViewModel.TranslatorViewModel.TranslateMorseToText | app/src/main/java/com/kreggscode/morsecode/viewmodel/TranslatorViewModel.kt:102-107 | the Morse goes into the text input and its decoding into the Morse output, nothing else changes |
| TranslatorViewModel.TranslatorViewModel.SaveToHistory | app/src/main/java/com/kreggscode/morsecode/viewmodel/TranslatorViewModel.kt:139-156 | the screen state is untouched; the history gains exactly the one record `HistoryRecord` describes (text, Morse, timestamp, type, cipher name and key), or nothing |
| TranslatorViewModel.TranslatorViewModel.SetEncryptionType | app/src/main/java/com/kreggscode/morsecode/viewmodel/TranslatorViewModel.kt:162-168 | the type changes; the Morse output is recomputed only when the text input is non-empty |
| TranslatorViewModel.TranslatorViewModel.SetEncryptionKey | app/src/main/java/com/kreggscode/morsecode/viewmodel/TranslatorViewModel.kt:170-176 | the key changes; the Morse output is recomputed only when the text input is non-empty |
| TranslatorViewModel.TranslatorViewModel.ClearAll | app/src/main/java/com/kreggscode/morsecode/viewmodel/TranslatorViewModel.kt:178-180 | back to the default state; the history stays |
| GamesViewModel.DefaultState | app/src/main/java/com/kreggscode/morsecode/viewmodel/GamesViewModel.kt:162-175 | no game selected or playing, score and counter 0, ten questions, no cards |
| GamesViewModel.PoolHasCodes | app/src/main/java/com/kreggscode/morsecode/viewmodel/GamesViewModel.kt:46-48 | every letter and digit a question can ask has a code, and it decodes to that character alone |
| GamesViewModel.PairsCount | app/src/main/java/com/kreggscode/morsecode/viewmodel/GamesViewModel.kt:72-76 | the pair loop puts exactly two cards per occurrence of a character |
| GamesViewModel.PairsLength | app/src/main/java/com/kreggscode/morsecode/viewmodel/GamesViewModel.kt:72-76 | two cards per character |
| GamesViewModel.DeckOf | app/src/main/java/com/kreggscode/morsecode/viewmodel/GamesViewModel.kt:69-76 | over distinct characters each one appears exactly twice and no other card appears |
| GamesViewModel.MemoryDeck | app/src/main/java/com/kreggscode/morsecode/viewmodel/GamesViewModel.kt:68-84 | 16 cards; each of A to H exactly twice, unflipped, with a code that decodes to it; no other card |
| GamesViewModel.GamesViewModel.BuildPairs | app/src/main/java/com/kreggscode/morsecode/viewmodel/GamesViewModel.kt:69-76 | the loop builds exactly the pair list |
| GamesViewModel.GamesViewModel.constructor | app/src/main/java/com/kreggscode/morsecode/viewmodel/GamesViewModel.kt:28 | the screen starts in the default state |
| GamesViewModel.GamesViewModel.SelectGame | app/src/main/java/com/kreggscode/morsecode/viewmodel/GamesViewModel.kt:31-33 | only the selected game changes |
| GamesViewModel.GamesViewModel.StartGame | app/src/main/java/com/kreggscode/morsecode/viewmodel/GamesViewModel.kt:35-43 | nothing without a selected game; the decoder, speed and SOS games start a decoder game; the memory game deals a permutation of the pairs |
| GamesViewModel.GamesViewModel.StartDecoderGame | app/src/main/java/com/kreggscode/morsecode/viewmodel/GamesViewModel.kt:45-66 | playing, score 0, question 1 of 10, the question the code of the drawn character and the answer that character; the question decodes to the answer |
| GamesViewModel.GamesViewModel.StartMemoryGame | app/src/main/java/com/kreggscode/morsecode/viewmodel/GamesViewModel.kt:68-85 | playing, score 0, 16 cards that are a permutation of the A to H pairs |
| GamesViewModel.GamesViewModel.SubmitAnswer | app/src/main/java/com/kreggscode/morsecode/viewmodel/GamesViewModel.kt:91-105 | the whole new state: the score becomes `NextScore` of the old score and whether the answer equals the expected one ignoring case; after the last question play stops, the game is complete and the verdict is kept; otherwise the counter moves on by one, the question becomes the code of the drawn character with that character as the answer (and decodes to it), and the verdict is cleared; no other field changes |
| GamesViewModel.GamesViewModel.NextQuestion | app/src/main/java/com/kreggscode/morsecode/viewmodel/GamesViewModel.kt:107-120 | the counter grows by exactly 1, the last answer is cleared, the question is the code of the new answer |
| GamesViewModel.GamesViewModel.EndGame | app/src/main/java/com/kreggscode/morsecode/viewmodel/GamesViewModel.kt:146-149 | play stops and the game is complete, nothing else changes |
| GamesViewModel.GamesViewModel.ExitGame | app/src/main/java/com/kreggscode/morsecode/viewmodel/GamesViewModel.kt:152-154 | back to the default state |
| GamesViewModel.NextScore | app/src/main/java/com/kreggscode/morsecode/viewmodel/GamesViewModel.kt:92-97 | the score stays non-negative, grows by 10 when correct, and otherwise drops by 5 from a score of at least 5 and becomes 0 from a score below 5 |
| GamesViewModel.ScoreAfter | app/src/main/java/com/kreggscode/morsecode/viewmodel/GamesViewModel.kt:92-97 | after any answers the score lies between 0 and 10 per answer |
| GamesViewModel.PerfectGame | app/src/main/java/com/kreggscode/morsecode/viewmodel/GamesViewModel.kt:92-97 | ten right answers score 100, ten wrong ones 0 |
| GamesViewModel.AllCorrect | app/src/main/java/com/kreggscode/morsecode/viewmodel/GamesViewModel.kt:92-97 | n right answers score 10·n |
| GamesViewModel.AllWrong | app/src/main/java/com/kreggscode/morsecode/viewmodel/GamesViewModel.kt:92-97 | wrong answers alone never lift the score above 0 |
| LearnViewModel.DefaultState | app/src/main/java/com/kreggscode/morsecode/viewmodel/LearnViewModel.kt:160-172 | category "Letters", all three character lists empty, nothing playing, quiz off with index, score 0, not answered, no verdict, not complete |
| LearnViewModel.Entries | app/src/main/java/com/kreggscode/morsecode/viewmodel/LearnViewModel.kt:36-58 | one entry per character, in order, each with its code and the category |
| LearnViewModel.LoadCharacters | app/src/main/java/com/kreggscode/morsecode/viewmodel/LearnViewModel.kt:35-64 | 54 entries (letters, digits, punctuation); the filtered list is the 26 letters |
| LearnViewModel.EntriesDecode | app/src/main/java/com/kreggscode/morsecode/viewmodel/LearnViewModel.kt:35-64 | every listed entry has a real code, which decodes to its character |
| LearnViewModel.FilterMembers | app/src/main/java/com/kreggscode/morsecode/viewmodel/LearnViewModel.kt:67 | the filter keeps exactly the entries of the category |
| LearnViewModel.FilterAppend | app/src/main/java/com/kreggscode/morsecode/viewmodel/LearnViewModel.kt:67 | filtering distributes over concatenation, so order is kept |
| LearnViewModel.SelectCategoryLists | app/src/main/java/com/kreggscode/morsecode/viewmodel/LearnViewModel.kt:66-72 | each category selects exactly its own list, in order; an unknown one selects none |
| LearnViewModel.SelectCategory | app/src/main/java/com/kreggscode/morsecode/viewmodel/LearnViewModel.kt:66-72 | the category is set and the filtered list holds exactly the entries of that category; nothing else changes |
| LearnViewModel.LearnViewModel.constructor | app/src/main/java/com/kreggscode/morsecode/viewmodel/LearnViewModel.kt:25-33 | the screen starts with the characters loaded |
| LearnViewModel.LearnViewModel.DoSelectCategory | app/src/main/java/com/kreggscode/morsecode/viewmodel/LearnViewModel.kt:66-72 | the state becomes `SelectCategory` of the old one |
| LearnViewModel.LearnViewModel.PlayCharacter | app/src/main/java/com/kreggscode/morsecode/viewmodel/LearnViewModel.kt:74-85 | nothing is recorded for an empty string or an uncoded character; otherwise the store entry for the character becomes `NextProgress` of its old record (if any) with learned set and no quiz result, and every other entry is unchanged; learned characters stay learned |
| LearnViewModel.LearnViewModel.StartQuiz | app/src/main/java/com/kreggscode/morsecode/viewmodel/LearnViewModel.kt:87-100 | nothing on an empty list; otherwise quiz mode, index 0, score 0, unanswered, over a permutation of the filtered list |
| LearnViewModel.LearnViewModel.SubmitQuizAnswer | app/src/main/java/com/kreggscode/morsecode/viewmodel/LearnViewModel.kt:109-122 | nothing past the list; otherwise the score grows by 1 exactly when the answer matches ignoring case, the question is answered, and the attempt is recorded for that character |
| LearnViewModel.LearnViewModel.NextQuizQuestion | app/src/main/java/com/kreggscode/morsecode/viewmodel/LearnViewModel.kt:124-141 | past the last index the quiz ends as complete; otherwise the index moves on by one and the answer flags clear |
| LearnViewModel.LearnViewModel.ExitQuiz | app/src/main/java/com/kreggscode/morsecode/viewmodel/LearnViewModel.kt:147-152 | only quiz mode and completion are cleared |
| LearnViewModel.QuizScore | app/src/main/java/com/kreggscode/morsecode/viewmodel/LearnViewModel.kt:117-118 | at most one point per answer, and full marks exactly when every answer is right |
| LearnRepository.NextProgress | app/src/main/java/com/kreggscode/morsecode/data/repository/LearnRepository.kt:21-45 | the timestamp is the clock; times learned +1 iff learned, quiz score +1 iff the answer was right, attempts +1 iff there was an answer, starting from 0 for a new record |
| LearnRepository.NextProgressSound | app/src/main/java/com/kreggscode/morsecode/data/repository/LearnRepository.kt:21-45 | every update keeps the counters non-negative with the quiz score at most the attempts |
| LearnRepository.LearnRepository.constructor | app/src/main/java/com/kreggscode/morsecode/data/repository/LearnRepository.kt:7 | the store starts empty |
| LearnRepository.LearnRepository.LearnedCharacters | app/src/main/java/com/kreggscode/morsecode/data/local/dao/LearnProgressDao.kt:25-26 | the learned characters are exactly the stored ones with a positive count |
| LearnRepository.LearnRepository.UpdateProgress | app/src/main/java/com/kreggscode/morsecode/data/repository/LearnRepository.kt:21-45 | only the named character's record changes, to `NextProgress` of the old one; every record stays sound; a learned character is counted afterwards |
| LearnRepository.LearnRepository.ResetProgress | app/src/main/java/com/kreggscode/morsecode/data/repository/LearnRepository.kt:47-49 | the store is empty and the learned count 0 |
| Ints.Negate | app/src/main/java/com/kreggscode/morsecode/domain/EncryptionManager.kt:29 | Kotlin's `-shift` on a 32-bit `Int`: the negation, except that Int.MIN_VALUE stays itself |
| Ints.Rem | app/src/main/java/com/kreggscode/morsecode/domain/EncryptionManager.kt:11 | Kotlin's `%`: smaller than the divisor in size, with the dividend's sign, and consistent with truncating division |

## Left out

- Case mapping is ASCII only. Kotlin's `uppercase()` can change a string's length ('ß' becomes "SS"), and `isUpperCase()` is true for non-ASCII letters, which the Caesar and substitution code would then mis-shift. Neither is modelled.
- The speed multiplier of `getMorseTiming` is a `Float` division followed by `toLong`. It is modelled as an abstract function `scale` from base to played duration; floating point is not modelled.
- Audio, flashlight and vibration playback are not modelled: `MorseAudioPlayer`, `FlashlightController`, `VibrationController`, the games' `playMorse`/`replayQuestion`, and the `isPlaying`, `isFlashing`, `progress` and `playbackSpeed` fields of the translator screen. The model keeps only the guards deciding whether anything is played.
- Coroutines (`viewModelScope.launch`) are modelled as running to completion in call order. Interleavings are not modelled.
- Room is modelled as a map (the progress store) and a sequence (the translation history). Generated ids, `Flow` queries and `favorite` and delete operations are not modelled.
- `endGame` also writes a `GameScore` through `GameRepository` with the elapsed time. That write is not modelled; only the state change is.
- The clock (`System.currentTimeMillis()`) and randomness (`random()`, `shuffled()`) are parameters: a timestamp `now`, a drawn index `pick` and Fisher-Yates draws. Only permutation facts are stated about the shuffle, since the real distribution is not modelled.
- `playingCharacter` in `playCharacter` is set and then cleared after the playback delay. Those transient transitions are not modelled; the progress update is.
- Scores, counters and the quiz index are unbounded integers. Kotlin's `Int` would wrap after about 200 million correct answers; that is not modelled.
- `Long.toTimeAgo`: `Long` overflow in `now - this` is not modelled, and `toFormattedDate` (a `SimpleDateFormat` call) is passed in as a string.
- `Float.clamp`, `shareText`, `withAlpha`, `randomItem` and `reverseString` in the extensions file are not modelled: they are floating point, Android intents, colours, or duplicates of modelled code.
- The key argument of `encryptAndMorse`/`morseAndDecrypt` is untyped (`Any?`). It is modelled as `NoKey`, `IntKey`, `StrKey` or `OtherKey`; the last stands for any other object.
- EncryptionManager.CaesarRoundTrip: states the round trip for every shift except Int.MIN_VALUE. Kotlin's `-shift` wraps there, and decryption then shifts the same way as encryption. `EncryptionManager.CaesarMinValueShift` shows this; the model keeps the source's 32-bit `Int`.
- EncryptionManager.CombinedRoundTrip: excludes shift Int.MIN_VALUE for the same reason.
- EncryptionManager.PipelineRoundTrip: holds for the cipher choices in `Invertible`: Caesar and combined with a shift other than Int.MIN_VALUE, and custom with a short key or one whose first 26 upper-cased characters are a permutation of A to Z. Other keys make the substitution non-injective.
- TranslatorViewModel.ScreenRoundTrip: holds under the same conditions as `PipelineRoundTrip`.
- Extensions.CaesarRoundTrip: stated only for shifts 0 to 26. Outside that range `26 - shift` or the unnormalised `%` leaves the alphabet; `Extensions.CaesarLargeShift` and `Extensions.CaesarNegativeShift` show this.
- The `?: return` after `getCharMorse` in `startDecoderGame` and `nextQuestion` never fires, because every letter and digit has a code (`GamesViewModel.PoolHasCodes`). The model takes the code directly.

## Findings

| source | as written | input that shows it | evidently intended | confidence | as-written member | corrected member |
|---|---|---|---|---|---|---|
| app/src/main/java/com/kreggscode/morsecode/util/Extensions.kt:22-30 | the shift is added without reducing it mod 26 first, and Kotlin's `%` keeps the sign of a negative sum, so a negative shift moves a letter out of the alphabet | `"A".caesarEncrypt(-1)` gives "@" | letters stay letters of the same case for every shift, as in the normalising cipher of the encryption manager | not executed | Extensions.CaesarNegativeShift | EncryptionManager.CaesarEncrypt |
