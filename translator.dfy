/**
 * The Morse translator: text to Morse, Morse to text, the validator, the
 * single-character lookups, the timing sequence used for playback and the
 * tokenizer.
 */
module MorseTranslator {
  import opened Wrappers
  import opened Strings
  import opened Constants

  /** `CHAR_TO_MORSE[char] ?: ""` for each character, in order. */
  function MapCodes(u: string): (r: seq<string>)
    ensures |r| == |u|
    ensures forall i :: 0 <= i < |u| ==> r[i] == CharToMorse(u[i]).GetOr("")
  {
    if u == [] then [] else [CharToMorse(u[0]).GetOr("")] + MapCodes(u[1..])
  }

  /** `filter { it.isNotEmpty() }`. */
  function NonEmpty(parts: seq<string>): (r: seq<string>)
    ensures forall i :: 0 <= i < |r| ==> r[i] != ""
    ensures |r| <= |parts|
  {
    if parts == [] then [] else (if parts[0] == "" then [] else [parts[0]]) + NonEmpty(parts[1..])
  }

  /** The codes of the characters of `u` that the table knows, in order. */
  function KnownCodes(u: string): seq<string>
  {
    if u == [] then []
    else (match CharToMorse(u[0]) case Some(code) => [code] case None => []) + KnownCodes(u[1..])
  }

  predicate AllInTable(u: string)
  {
    forall i :: 0 <= i < |u| ==> CharToMorse(u[i]).Some?
  }

  /** `textToMorse`: blank text gives "", otherwise the codes of the upper-cased text joined by one space. */
  function TextToMorse(text: string): (r: string)
    ensures IsBlank(text) ==> r == ""
  {
    if IsBlank(text) then "" else Join(NonEmpty(MapCodes(Uppercase(text))), " ")
  }

  /** Looking up "" for unknown characters and filtering empties is dropping the unknown characters. */
  lemma {:induction false} NonEmptyMapCodes(u: string)
    ensures NonEmpty(MapCodes(u)) == KnownCodes(u)
  {
    if u != [] {
      NonEmptyMapCodes(u[1..]);
      assert MapCodes(u)[1..] == MapCodes(u[1..]);
      if CharToMorse(u[0]).Some? {
        CodeShape(u[0]);
      }
    }
  }

  /** Unmapped characters are dropped and the remaining codes are joined with one space. */
  lemma TextToMorseCodes(text: string)
    requires !IsBlank(text)
    ensures TextToMorse(text) == Join(KnownCodes(Uppercase(text)), " ")
  {
    NonEmptyMapCodes(Uppercase(text));
  }

  lemma {:induction false} KnownCodesAll(u: string)
    requires AllInTable(u)
    ensures |KnownCodes(u)| == |u|
    ensures forall i :: 0 <= i < |u| ==> KnownCodes(u)[i] == CharToMorse(u[i]).value
  {
    if u != [] {
      KnownCodesAll(u[1..]);
    }
  }

  predicate IsMorseSymbol(c: char)
  {
    c == '.' || c == '-' || c == '/' || c == ' '
  }

  /** The regular expression `^[.\-/ ]+$`: one or more Morse symbols. */
  function MatchesMorsePattern(s: string): (r: bool)
    ensures r <==> s != [] && forall i :: 0 <= i < |s| ==> IsMorseSymbol(s[i])
  {
    s != [] && IsMorseSymbol(s[0]) && (|s| == 1 || MatchesMorsePattern(s[1..]))
  }

  /** `isValidMorse`: blank, or made of dots, dashes, slashes and spaces only. */
  function IsValidMorse(morse: string): (r: bool)
    ensures r <==> IsBlank(morse) || forall i :: 0 <= i < |morse| ==> IsMorseSymbol(morse[i])
  {
    IsBlank(morse) || MatchesMorsePattern(morse)
  }

  lemma {:induction false} JoinSymbols(parts: seq<string>)
    requires forall i, k :: 0 <= i < |parts| && 0 <= k < |parts[i]| ==> IsMorseSymbol(parts[i][k])
    ensures forall k :: 0 <= k < |Join(parts, " ")| ==> IsMorseSymbol(Join(parts, " ")[k])
  {
    if |parts| > 1 {
      JoinSymbols(parts[1..]);
      var rest := Join(parts[1..], " ");
      forall k | 0 <= k < |Join(parts, " ")| ensures IsMorseSymbol(Join(parts, " ")[k]) {
        if k < |parts[0]| {
          assert Join(parts, " ")[k] == parts[0][k];
        } else if k > |parts[0]| {
          assert Join(parts, " ")[k] == rest[k - |parts[0]| - 1];
        }
      }
    }
  }

  /** Whatever the text, its encoding passes the validator. */
  lemma TextToMorseIsValid(text: string)
    ensures IsValidMorse(TextToMorse(text))
  {
    if !IsBlank(text) {
      var u := Uppercase(text);
      TextToMorseCodes(text);
      KnownCodesSymbols(u);
      JoinSymbols(KnownCodes(u));
    }
  }

  lemma {:induction false} KnownCodesSymbols(u: string)
    ensures forall i, k :: 0 <= i < |KnownCodes(u)| && 0 <= k < |KnownCodes(u)[i]| ==> IsMorseSymbol(KnownCodes(u)[i][k])
    ensures forall i :: 0 <= i < |KnownCodes(u)| ==> ' ' !in KnownCodes(u)[i] && KnownCodes(u)[i] != ""
  {
    if u != [] {
      KnownCodesSymbols(u[1..]);
      if CharToMorse(u[0]).Some? {
        CodeShape(u[0]);
      }
    }
  }

  /** The characters of the tokens that MORSE_TO_CHAR knows; empty and unknown tokens are skipped. */
  function DecodeTokens(tokens: seq<string>): string
  {
    if tokens == [] then ""
    else
      (if tokens[0] != "" && MorseToChar(tokens[0]).Some? then [MorseToChar(tokens[0]).value] else "")
      + DecodeTokens(tokens[1..])
  }

  /** `morseToText`: blank gives "", otherwise the trimmed input split on spaces and decoded token by token. */
  function MorseToText(morse: string): (r: string)
    ensures IsBlank(morse) ==> r == ""
  {
    if IsBlank(morse) then "" else DecodeTokens(Split(Trim(morse)))
  }

  lemma {:induction false} DecodeKnownCodes(u: string)
    requires AllInTable(u)
    ensures DecodeTokens(KnownCodes(u)) == u
  {
    if u != [] {
      DecodeKnownCodes(u[1..]);
      var code := CharToMorse(u[0]).value;
      CodeShape(u[0]);
      MorseToCharInverse(u[0], code);
      assert KnownCodes(u) == [code] + KnownCodes(u[1..]);
      assert [u[0]] + u[1..] == u;
    }
  }

  lemma {:induction false} JoinEnds(parts: seq<string>)
    requires |parts| >= 1 && forall i :: 0 <= i < |parts| ==> parts[i] != ""
    ensures Join(parts, " ") != []
    ensures Join(parts, " ")[0] == parts[0][0]
    ensures Join(parts, " ")[|Join(parts, " ")| - 1] == parts[|parts| - 1][|parts[|parts| - 1]| - 1]
  {
    if |parts| > 1 {
      JoinEnds(parts[1..]);
    }
  }

  /**
   * Round trip: text that is not blank and whose upper-cased characters are
   * all in the table decodes back to its upper-cased form, spaces included.
   */
  lemma TextRoundTrip(text: string)
    requires !IsBlank(text) && AllInTable(Uppercase(text))
    ensures MorseToText(TextToMorse(text)) == Uppercase(text)
  {
    var u := Uppercase(text);
    var codes := KnownCodes(u);
    TextToMorseCodes(text);
    KnownCodesAll(u);
    KnownCodesSymbols(u);
    var m := Join(codes, " ");
    assert TextToMorse(text) == m;
    JoinEnds(codes);
    assert !IsWhitespace(m[0]) && !IsWhitespace(m[|m| - 1]) by {
      JoinSymbols(codes);
    }
    assert !IsBlank(m);
    assert Trim(m) == m;
    SplitJoin(codes);
    DecodeKnownCodes(u);
  }

  /** `getCharMorse`: the code of the upper-cased character. */
  function GetCharMorse(c: char): (r: Option<string>)
    ensures r.Some? ==> MorseToChar(r.value) == Some(UpperChar(c))
  {
    var k := UpperChar(c);
    CodeDecodes(k);
    CharToMorse(k)
  }

  /** `getCharMorse` finds a code exactly for the characters whose upper-case form is a key of the table. */
  lemma GetCharMorseDomain(c: char)
    ensures GetCharMorse(c).Some? <==> UpperChar(c) in TableKeys
  {
    TableDomain(UpperChar(c));
  }

  lemma CodeDecodes(k: char)
    ensures CharToMorse(k).Some? ==> MorseToChar(CharToMorse(k).value) == Some(k)
  {
    if CharToMorse(k).Some? {
      MorseToCharInverse(k, CharToMorse(k).value);
    }
  }

  /** `getCharMorse` ignores case: a lower-case letter has the code of its upper-case form. */
  lemma {:induction false} GetCharMorseIgnoresCase(c: char)
    requires IsLower(c)
    ensures GetCharMorse(c) == GetCharMorse(UpperChar(c)) && GetCharMorse(c).Some?
  {
    UpperLowerInverse(c);
    GetCharMorseDomain(c);
    GetCharMorseDomain(UpperChar(c));
  }

  /** `getMorseChar`: the character whose code is `code`, if there is one. */
  function GetMorseChar(code: string): (r: Option<char>)
    ensures r.Some? ==> CharToMorse(r.value) == Some(code)
    ensures r.None? ==> forall c :: CharToMorse(c) != Some(code)
  {
    MorseToCharDecides(code);
    MorseToChar(code)
  }

  lemma MorseToCharDecides(code: string)
    ensures MorseToChar(code).Some? ==> CharToMorse(MorseToChar(code).value) == Some(code)
    ensures MorseToChar(code).None? ==> forall c :: CharToMorse(c) != Some(code)
  {
    if MorseToChar(code).Some? {
      MorseToCharSome(code);
    }
    forall c ensures MorseToChar(code).None? ==> CharToMorse(c) != Some(code) {
      MorseToCharInverse(c, code);
    }
  }

  /** What a timing unit is: a mark (dot, dash) or one of the three gaps. */
  datatype TimingType = Dot | Dash | SymbolGap | LetterGap | WordGap

  datatype MorseTiming = MorseTiming(timingType: TimingType, duration: int)

  /** The base duration of each kind of unit, before speed scaling. */
  function BaseDuration(t: TimingType): int
  {
    match t
    case Dot => DotDurationMs
    case Dash => DashDurationMs
    case SymbolGap => SymbolGapMs
    case LetterGap => LetterGapMs
    case WordGap => WordGapMs
  }

  /**
   * The units one symbol contributes: a mark followed by a symbol gap for
   * '.' and '-', one gap for ' ' and '/', nothing for anything else.
   * `scale` turns a base duration into the played one.
   */
  function SymbolTimings(symbol: char, scale: int -> int): seq<MorseTiming>
  {
    match symbol
    case '.' => [MorseTiming(Dot, scale(DotDurationMs)), MorseTiming(SymbolGap, scale(SymbolGapMs))]
    case '-' => [MorseTiming(Dash, scale(DashDurationMs)), MorseTiming(SymbolGap, scale(SymbolGapMs))]
    case ' ' => [MorseTiming(LetterGap, scale(LetterGapMs))]
    case '/' => [MorseTiming(WordGap, scale(WordGapMs))]
    case _ => []
  }

  /** The timing sequence of a whole Morse string: each symbol's units, in input order. */
  function MorseTimings(morse: string, scale: int -> int): seq<MorseTiming>
  {
    if morse == [] then []
    else MorseTimings(morse[..|morse| - 1], scale) + SymbolTimings(morse[|morse| - 1], scale)
  }

  /** `getMorseTiming`: walks the string once, appending each symbol's units. */
  method GetMorseTiming(morse: string, scale: int -> int) returns (timings: seq<MorseTiming>)
    ensures timings == MorseTimings(morse, scale)
  {
    timings := [];
    for i := 0 to |morse|
      invariant timings == MorseTimings(morse[..i], scale)
    {
      var symbol := morse[i];
      if symbol == '.' {
        timings := timings + [MorseTiming(Dot, scale(DotDurationMs))];
      } else if symbol == '-' {
        timings := timings + [MorseTiming(Dash, scale(DashDurationMs))];
      } else if symbol == ' ' {
        timings := timings + [MorseTiming(LetterGap, scale(LetterGapMs))];
      } else if symbol == '/' {
        timings := timings + [MorseTiming(WordGap, scale(WordGapMs))];
      }
      if symbol == '.' || symbol == '-' {
        timings := timings + [MorseTiming(SymbolGap, scale(SymbolGapMs))];
      }
      assert morse[..i + 1][..i] == morse[..i];
    }
    assert morse[..|morse|] == morse;
  }

  /** The units of a concatenation are the units of its parts, in order. */
  lemma {:induction false} TimingsAppend(a: string, b: string, scale: int -> int)
    ensures MorseTimings(a + b, scale) == MorseTimings(a, scale) + MorseTimings(b, scale)
  {
    if b == [] {
      assert a + b == a;
    } else {
      var b', last := b[..|b| - 1], b[|b| - 1];
      var ab := a + b;
      InitOfAppend(a, b);
      TimingsAppend(a, b', scale);
      var x, y, z := MorseTimings(a, scale), MorseTimings(b', scale), SymbolTimings(last, scale);
      assert MorseTimings(ab, scale) == (x + y) + z;
      assert MorseTimings(b, scale) == y + z;
      assert (x + y) + z == x + (y + z);
    }
  }

  lemma InitOfAppend<X>(a: seq<X>, b: seq<X>)
    requires b != []
    ensures (a + b)[..|a + b| - 1] == a + b[..|b| - 1] && (a + b)[|a + b| - 1] == b[|b| - 1]
  {
  }

  function Count(s: string, c: char): nat
  {
    if s == [] then 0 else Count(s[..|s| - 1], c) + (if s[|s| - 1] == c then 1 else 0)
  }

  /** Two units per dot or dash, one per space or slash, none for other characters. */
  lemma {:induction false} TimingsLength(morse: string, scale: int -> int)
    ensures |MorseTimings(morse, scale)|
      == 2 * (Count(morse, '.') + Count(morse, '-')) + Count(morse, ' ') + Count(morse, '/')
  {
    if morse != [] {
      TimingsLength(morse[..|morse| - 1], scale);
    }
  }

  /** Every mark is immediately followed by a symbol gap. */
  lemma {:induction false} MarksFollowedByGap(morse: string, scale: int -> int, i: int)
    requires 0 <= i < |MorseTimings(morse, scale)|
    requires MorseTimings(morse, scale)[i].timingType in {Dot, Dash}
    ensures i + 1 < |MorseTimings(morse, scale)|
    ensures MorseTimings(morse, scale)[i + 1].timingType == SymbolGap
  {
    var init := MorseTimings(morse[..|morse| - 1], scale);
    if i < |init| {
      MarksFollowedByGap(morse[..|morse| - 1], scale, i);
    }
  }

  /** At normal speed every unit lasts exactly its base duration. */
  lemma {:induction false} UnscaledDurations(morse: string, i: int)
    requires 0 <= i < |MorseTimings(morse, x => x)|
    ensures MorseTimings(morse, x => x)[i].duration == BaseDuration(MorseTimings(morse, x => x)[i].timingType)
  {
    var init := MorseTimings(morse[..|morse| - 1], x => x);
    if i < |init| {
      UnscaledDurations(morse[..|morse| - 1], i);
    }
  }

  /** `splitMorseIntoChars`: the non-empty space-separated tokens of the trimmed input. */
  function SplitMorseIntoChars(morse: string): (r: seq<string>)
    ensures forall i :: 0 <= i < |r| ==> r[i] != "" && ' ' !in r[i]
  {
    NonEmptyNoSpaces(Split(Trim(morse)));
    NonEmpty(Split(Trim(morse)))
  }

  lemma {:induction false} NonEmptyNoSpaces(parts: seq<string>)
    requires NoSpaces(parts)
    ensures NoSpaces(NonEmpty(parts))
  {
    if parts != [] {
      NonEmptyNoSpaces(parts[1..]);
    }
  }

  /** The filter keeps each piece on its own terms: it distributes over concatenation. */
  lemma {:induction false} NonEmptyAppend(a: seq<string>, b: seq<string>)
    ensures NonEmpty(a + b) == NonEmpty(a) + NonEmpty(b)
  {
    if a != [] {
      assert (a + b)[0] == a[0] && (a + b)[1..] == a[1..] + b;
      NonEmptyAppend(a[1..], b);
    } else {
      assert a + b == b;
    }
  }

  /** A single piece survives the filter exactly when it is not empty. */
  lemma NonEmptySingle(x: string)
    ensures NonEmpty([x]) == (if x == "" then [] else [x])
  {
    assert [x][1..] == [];
  }

  /** Pieces that are all non-empty pass the filter unchanged. */
  lemma {:induction false} NonEmptyKeeps(parts: seq<string>)
    requires forall i :: 0 <= i < |parts| ==> parts[i] != ""
    ensures NonEmpty(parts) == parts
  {
    if parts != [] {
      NonEmptyKeeps(parts[1..]);
    }
  }

  /**
   * Tokenizing undoes joining with single spaces, for tokens that are not
   * empty and hold no whitespace.
   */
  lemma SplitMorseJoin(parts: seq<string>)
    requires |parts| >= 1
    requires forall i, k :: 0 <= i < |parts| && 0 <= k < |parts[i]| ==> !IsWhitespace(parts[i][k])
    requires forall i :: 0 <= i < |parts| ==> parts[i] != ""
    ensures SplitMorseIntoChars(Join(parts, " ")) == parts
  {
    var s := Join(parts, " ");
    JoinEnds(parts);
    var last := parts[|parts| - 1];
    assert !IsWhitespace(parts[0][0]) && !IsWhitespace(last[|last| - 1]);
    assert Trim(s) == s;
    assert NoSpaces(parts) by {
      assert IsWhitespace(' ');
    }
    SplitJoin(parts);
    NonEmptyKeeps(parts);
  }

  lemma {:induction false} ConcatSplit(s: string)
    ensures Concat(Split(s)) == WithoutSpaces(s)
  {
    if s != [] {
      ConcatSplit(s[1..]);
      var rest := Split(s[1..]);
      if s[0] != ' ' {
        assert Concat(rest) == rest[0] + Concat(rest[1..]);
        assert Concat([[s[0]] + rest[0]] + rest[1..]) == [s[0]] + rest[0] + Concat(rest[1..]);
      }
    }
  }

  lemma {:induction false} ConcatNonEmpty(parts: seq<string>)
    ensures Concat(NonEmpty(parts)) == Concat(parts)
  {
    if parts != [] {
      ConcatNonEmpty(parts[1..]);
      var rest := NonEmpty(parts[1..]);
      if parts[0] == "" {
        assert NonEmpty(parts) == rest;
      } else {
        assert NonEmpty(parts) == [parts[0]] + rest;
        assert Concat([parts[0]] + rest) == parts[0] + Concat(rest) by {
          assert ([parts[0]] + rest)[1..] == rest;
        }
      }
    }
  }

  /** The tokens, in order, hold every character of the trimmed input except the spaces. */
  lemma SplitMorseKeepsSymbols(morse: string)
    ensures Concat(SplitMorseIntoChars(morse)) == WithoutSpaces(Trim(morse))
  {
    ConcatNonEmpty(Split(Trim(morse)));
    ConcatSplit(Trim(morse));
  }

  lemma {:induction false} DecodeNonEmpty(tokens: seq<string>)
    ensures DecodeTokens(NonEmpty(tokens)) == DecodeTokens(tokens)
  {
    if tokens != [] {
      DecodeNonEmpty(tokens[1..]);
      var rest := NonEmpty(tokens[1..]);
      if tokens[0] == "" {
        assert NonEmpty(tokens) == rest;
      } else {
        assert NonEmpty(tokens) == [tokens[0]] + rest;
        assert ([tokens[0]] + rest)[1..] == rest;
      }
    }
  }

  /** Decoding is decoding the tokens `splitMorseIntoChars` yields, blank input included. */
  lemma MorseToTextByTokens(morse: string)
    ensures MorseToText(morse) == DecodeTokens(SplitMorseIntoChars(morse))
  {
    DecodeNonEmpty(Split(Trim(morse)));
  }

  /** The code of a single character, on its own, decodes back to that character. */
  lemma SingleCodeDecodes(c: char)
    requires CharToMorse(c).Some?
    ensures MorseToText(CharToMorse(c).value) == [c]
  {
    var code := CharToMorse(c).value;
    CodeShape(c);
    assert !IsWhitespace(code[0]) && !IsWhitespace(code[|code| - 1]);
    assert !IsBlank(code);
    SplitNoSpace(code);
    MorseToCharInverse(c, code);
  }

  /** "SOS" encodes as the app shows it. */
  lemma SosEncodes()
    ensures TextToMorse("SOS") == "... --- ..."
  {
    assert !IsWhitespace("SOS"[0]);
    UppercaseFixes("SOS");
    SosCodes();
    TextToMorseCodes("SOS");
    SosJoin();
  }

  lemma SosJoin()
    ensures Join(["...", "---", "..."], " ") == "... --- ..."
  {
  }

  lemma SosCodes()
    ensures KnownCodes("SOS") == ["...", "---", "..."]
  {
    assert "SOS"[1..] == "OS" && "OS"[1..] == "S" && "S"[1..] == [];
    assert CharToMorse('S') == Some("...") && CharToMorse('O') == Some("---");
  }

  /** "... --- ..." decodes to "SOS". */
  lemma SosDecodes()
    ensures MorseToText("... --- ...") == "SOS"
  {
    SosEncodes();
    assert AllInTable("SOS") by {
      assert CharToMorse('S') == Some("...") && CharToMorse('O') == Some("---");
    }
    assert !IsWhitespace("SOS"[0]);
    UppercaseFixes("SOS");
    TextRoundTrip("SOS");
  }

  /** A word gap stands for the space, and a character without a code is dropped. */
  lemma WordExample()
    ensures TextToMorse("Hi 2#") == ".... .. / ..---"
  {
    assert !IsWhitespace("Hi 2#"[0]);
    WordUpper();
    WordCodes();
    TextToMorseCodes("Hi 2#");
    WordJoin();
  }

  lemma WordUpper()
    ensures Uppercase("Hi 2#") == "HI 2#"
  {
    assert UpperChar('i') == 'I';
  }

  lemma WordJoin()
    ensures Join(["....", "..", "/", "..---"], " ") == ".... .. / ..---"
  {
  }

  lemma WordCodes()
    ensures KnownCodes("HI 2#") == ["....", "..", "/", "..---"]
  {
    assert "HI 2#"[1..] == "I 2#" && "I 2#"[1..] == " 2#" && " 2#"[1..] == "2#";
    assert "2#"[1..] == "#" && "#"[1..] == [];
    assert CharToMorse('H') == Some("....") && CharToMorse('I') == Some("..");
    assert CharToMorse(' ') == Some("/") && CharToMorse('2') == Some("..---") && CharToMorse('#') == None;
  }

  /** A dot at normal speed is a 100 ms mark followed by a 100 ms gap. */
  lemma DotTimingExample()
    ensures MorseTimings(".", x => x) == [MorseTiming(Dot, 100), MorseTiming(SymbolGap, 100)]
  {
  }
}
