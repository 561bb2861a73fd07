/**
 * The Morse table and the fixed settings of the app: the character-to-code
 * table, its reverse, the playback timings, the learning totals, the game
 * points and the default Caesar shift.
 */
module Constants {
  import opened Wrappers
  import opened Strings

  /**
   * CHAR_TO_MORSE[c]: one case per entry of the table, in the order the
   * table lists them (letters, digits, punctuation, then the space).
   * Letters, digits and most punctuation follow ITU-R M.1677-1; '!', ';',
   * '_', '$' and '&' are additions.
   */
  function CharToMorse(c: char): Option<string>
  {
    match c
    case 'A' => Some(".-")
    case 'B' => Some("-...")
    case 'C' => Some("-.-.")
    case 'D' => Some("-..")
    case 'E' => Some(".")
    case 'F' => Some("..-.")
    case 'G' => Some("--.")
    case 'H' => Some("....")
    case 'I' => Some("..")
    case 'J' => Some(".---")
    case 'K' => Some("-.-")
    case 'L' => Some(".-..")
    case 'M' => Some("--")
    case 'N' => Some("-.")
    case 'O' => Some("---")
    case 'P' => Some(".--.")
    case 'Q' => Some("--.-")
    case 'R' => Some(".-.")
    case 'S' => Some("...")
    case 'T' => Some("-")
    case 'U' => Some("..-")
    case 'V' => Some("...-")
    case 'W' => Some(".--")
    case 'X' => Some("-..-")
    case 'Y' => Some("-.--")
    case 'Z' => Some("--..")
    case '0' => Some("-----")
    case '1' => Some(".----")
    case '2' => Some("..---")
    case '3' => Some("...--")
    case '4' => Some("....-")
    case '5' => Some(".....")
    case '6' => Some("-....")
    case '7' => Some("--...")
    case '8' => Some("---..")
    case '9' => Some("----.")
    case '.' => Some(".-.-.-")
    case ',' => Some("--..--")
    case '?' => Some("..--..")
    case '\'' => Some(".----.")
    case '!' => Some("-.-.--")
    case '/' => Some("-..-.")
    case '(' => Some("-.--.")
    case ')' => Some("-.--.-")
    case '&' => Some(".-...")
    case ':' => Some("---...")
    case ';' => Some("-.-.-.")
    case '=' => Some("-...-")
    case '+' => Some(".-.-.")
    case '-' => Some("-....-")
    case '_' => Some("..--.-")
    case '"' => Some(".-..-.")
    case '$' => Some("...-..-")
    case '@' => Some(".--.-.")
    case ' ' => Some("/")
    case _ => None
  }

  const Letters: string := "ABCDEFGHIJKLMNOPQRSTUVWXYZ"
  const Digits: string := "0123456789"
  const Punctuation: string := ".,?'!/()&:;=+-_\"$@"

  /** The keys of the table in the order they are written. */
  const TableKeys: string := Letters + Digits + Punctuation + " "

  /**
   * MORSE_TO_CHAR[code]. `associate { (k, v) -> v to k }` visits the entries
   * in order and a later entry overwrites an earlier one, so the result is
   * the last key of the table whose code is `code`.
   */
  function MorseToChar(code: string): Option<char>
  {
    Associate(TableKeys, code)
  }

  function Associate(keys: string, code: string): Option<char>
  {
    if keys == [] then None
    else if CharToMorse(keys[|keys| - 1]) == Some(code) then Some(keys[|keys| - 1])
    else Associate(keys[..|keys| - 1], code)
  }

  // Playback timings in milliseconds.
  const DotDurationMs: int := 100
  const DashDurationMs: int := 300
  const SymbolGapMs: int := 100
  const LetterGapMs: int := 300
  const WordGapMs: int := 700

  // Learning progress totals.
  const TotalLetters: int := 26
  const TotalNumbers: int := 10
  const TotalPunctuation: int := 18

  // Game points.
  const GamePointsCorrect: int := 10
  const GamePointsWrong: int := -5

  // Encryption.
  const DefaultCaesarShift: int := 3
  const MaxCaesarShift: int := 25

  /** A code of a printable character: a non-empty string of dots and dashes. */
  predicate IsCode(s: string)
  {
    |s| > 0 && forall i :: 0 <= i < |s| ==> s[i] == '.' || s[i] == '-'
  }

  /** The characters that have a code are exactly the keys written in the table. */
  lemma TableDomain(c: char)
    ensures CharToMorse(c).Some? <==> c in TableKeys
  {
    if c in TableKeys {
      var i :| 0 <= i < |TableKeys| && TableKeys[i] == c;
      KeyHasCode(i);
    } else if CharToMorse(c).Some? {
      CodedIsKey(c);
    }
  }

  lemma KeyHasCode(i: int)
    requires 0 <= i < |TableKeys|
    ensures CharToMorse(TableKeys[i]).Some?
  {
  }

  lemma CodedIsKey(c: char)
    requires CharToMorse(c).Some?
    ensures c in TableKeys
  {
  }

  /** The space is the word separator "/"; every other code is dots and dashes only. */
  lemma CodeShape(c: char)
    requires CharToMorse(c).Some?
    ensures c == ' ' ==> CharToMorse(c).value == "/"
    ensures c != ' ' ==> IsCode(CharToMorse(c).value)
  {
  }

  /** No two characters share a code. */
  lemma CodesDistinct(a: char, b: char)
    requires CharToMorse(a).Some? && CharToMorse(a) == CharToMorse(b)
    ensures a == b
  {
  }

  /** Only upper-case letters are keys: a lower-case letter has no code. */
  lemma LowercaseAbsent(c: char)
    requires IsLower(c)
    ensures CharToMorse(c) == None
  {
  }

  lemma {:induction false} AssociateFinds(keys: string, c: char)
    requires c in keys && CharToMorse(c).Some?
    ensures Associate(keys, CharToMorse(c).value) == Some(c)
  {
    var last := keys[|keys| - 1];
    if last != c {
      if CharToMorse(last) == CharToMorse(c) {
        CodesDistinct(c, last);
      }
      assert c in keys[..|keys| - 1] by {
        var i :| 0 <= i < |keys| && keys[i] == c;
        assert keys[..|keys| - 1][i] == c;
      }
      AssociateFinds(keys[..|keys| - 1], c);
    }
  }

  lemma {:induction false} AssociateSound(keys: string, code: string, c: char)
    requires Associate(keys, code) == Some(c)
    ensures CharToMorse(c) == Some(code)
  {
    if CharToMorse(keys[|keys| - 1]) != Some(code) {
      AssociateSound(keys[..|keys| - 1], code, c);
    }
  }

  /** MORSE_TO_CHAR is the exact inverse of CHAR_TO_MORSE. */
  lemma MorseToCharInverse(c: char, code: string)
    ensures MorseToChar(code) == Some(c) <==> CharToMorse(c) == Some(code)
  {
    if CharToMorse(c) == Some(code) {
      TableDomain(c);
      AssociateFinds(TableKeys, c);
    }
    if MorseToChar(code) == Some(c) {
      AssociateSound(TableKeys, code, c);
    }
  }

  /** A decoded character's code is the code that was looked up. */
  lemma MorseToCharSome(code: string)
    requires MorseToChar(code).Some?
    ensures CharToMorse(MorseToChar(code).value) == Some(code)
  {
    MorseToCharInverse(MorseToChar(code).value, code);
  }

  lemma LettersAt(i: int)
    requires 0 <= i < |Letters|
    ensures Letters[i] as int == 'A' as int + i
  {
  }

  lemma DigitsAt(i: int)
    requires 0 <= i < |Digits|
    ensures Digits[i] as int == '0' as int + i
  {
  }

  lemma PunctuationDistinct(i: int, j: int)
    requires 0 <= i < j < |Punctuation|
    ensures Punctuation[i] != Punctuation[j]
  {
  }

  lemma PunctuationClass(i: int)
    requires 0 <= i < |Punctuation|
    ensures var n := Punctuation[i] as int; 33 <= n <= 47 || 58 <= n <= 64 || n == 95
  {
  }

  predicate Distinct(s: string)
  {
    forall i, j :: 0 <= i < j < |s| ==> s[i] != s[j]
  }

  lemma TableKeysDistinct()
    ensures Distinct(TableKeys)
  {
    forall i, j | 0 <= i < j < |TableKeys| ensures TableKeys[i] != TableKeys[j] {
      KeysDistinctAt(i, j);
    }
  }

  lemma KeysDistinctAt(i: int, j: int)
    requires 0 <= i < j < |TableKeys|
    ensures TableKeys[i] != TableKeys[j]
  {
    var a, b := |Letters|, |Letters| + |Digits|;
    var c := b + |Punctuation|;
    assert TableKeys[..a] == Letters && TableKeys[a..b] == Digits;
    assert TableKeys[b..c] == Punctuation && TableKeys[c] == ' ';
    if i < a {
      LettersAt(i);
      assert TableKeys[i] == Letters[i];
    } else if i < b {
      DigitsAt(i - a);
      assert TableKeys[i] == Digits[i - a];
    } else if i < c {
      PunctuationClass(i - b);
      assert TableKeys[i] == Punctuation[i - b];
    }
    if j < a {
      LettersAt(j);
      assert TableKeys[j] == Letters[j];
    } else if j < b {
      DigitsAt(j - a);
      assert TableKeys[j] == Digits[j - a];
    } else if j < c {
      PunctuationClass(j - b);
      assert TableKeys[j] == Punctuation[j - b];
      if b <= i {
        PunctuationDistinct(i - b, j - b);
      }
    }
  }

  lemma {:induction false} DistinctCardinality(s: string)
    requires Distinct(s)
    ensures |set x | x in s| == |s|
  {
    if s != [] {
      var init := s[..|s| - 1];
      assert Distinct(init);
      DistinctCardinality(init);
      var last := s[|s| - 1];
      assert (set x | x in s) == (set x | x in init) + {last} by {
        forall x | x in s ensures x in init || x == last {
          var i :| 0 <= i < |s| && s[i] == x;
          if i < |s| - 1 { assert init[i] == x; }
        }
      }
      assert last !in init;
    }
  }

  /**
   * The table holds exactly TOTAL_LETTERS upper-case letters, TOTAL_NUMBERS
   * digits, TOTAL_PUNCTUATION punctuation marks and the space.
   */
  lemma TableCounts()
    ensures |Letters| == TotalLetters && |Digits| == TotalNumbers && |Punctuation| == TotalPunctuation
    ensures forall i :: 0 <= i < |Letters| ==> IsUpper(Letters[i])
    ensures forall i :: 0 <= i < |Digits| ==> '0' <= Digits[i] <= '9'
    ensures forall i :: 0 <= i < |Punctuation| ==> !IsUpper(Punctuation[i]) && !IsLower(Punctuation[i]) && !('0' <= Punctuation[i] <= '9')
    ensures |set c | c in TableKeys| == TotalLetters + TotalNumbers + TotalPunctuation + 1
  {
    forall i | 0 <= i < |Letters| ensures IsUpper(Letters[i]) { LettersAt(i); }
    forall i | 0 <= i < |Digits| ensures '0' <= Digits[i] <= '9' { DigitsAt(i); }
    forall i | 0 <= i < |Punctuation|
      ensures !IsUpper(Punctuation[i]) && !IsLower(Punctuation[i]) && !('0' <= Punctuation[i] <= '9')
    {
      PunctuationClass(i);
    }
    TableKeysDistinct();
    DistinctCardinality(TableKeys);
  }

  /** Dash, letter gap and word gap are 3, 3 and 7 dot lengths; the symbol gap is one. */
  lemma TimingRatios()
    ensures DashDurationMs == 3 * DotDurationMs
    ensures LetterGapMs == 3 * DotDurationMs
    ensures WordGapMs == 7 * DotDurationMs
    ensures SymbolGapMs == DotDurationMs
  {
  }
}
