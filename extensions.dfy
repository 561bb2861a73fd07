/**
 * The string and number extension functions: a second, simpler Morse
 * conversion, an unnormalised Caesar cipher, `Int.clamp` and the relative
 * time label.
 */
module Extensions {
  import opened Wrappers
  import opened Strings
  import opened Ints
  import opened Constants
  import opened MorseTranslator
  import EncryptionManager

  /** `String.toMorseCode`: one code per upper-cased character, "" for an unknown one, joined by single spaces. */
  function ToMorseCode(s: string): (r: string)
    ensures s == [] ==> r == ""
  {
    Join(MapCodes(Uppercase(s)), " ")
  }

  lemma {:induction false} MapCodesNoSpaces(u: string)
    ensures NoSpaces(MapCodes(u))
  {
    if u != [] {
      MapCodesNoSpaces(u[1..]);
      assert MapCodes(u) == [CharToMorse(u[0]).GetOr("")] + MapCodes(u[1..]);
      if CharToMorse(u[0]).Some? {
        CodeShape(u[0]);
      }
    }
  }

  /**
   * Nothing is dropped: the space-separated segments are exactly one per
   * character of the upper-cased input, empty where the table has no code.
   */
  lemma ToMorseCodeSegments(s: string)
    requires s != []
    ensures |Split(ToMorseCode(s))| == |s|
    ensures forall i :: 0 <= i < |s| ==>
      Split(ToMorseCode(s))[i] == (if CharToMorse(UpperChar(s[i])).Some? then CharToMorse(UpperChar(s[i])).value else "")
  {
    MapCodesNoSpaces(Uppercase(s));
    SplitJoin(MapCodes(Uppercase(s)));
  }

  /** `String.fromMorseCode`: split on single spaces without trimming, keep the tokens the table knows. */
  function FromMorseCode(s: string): string
  {
    DecodeTokens(Split(s))
  }

  /** The characters of `u` that have a code, in order. */
  function Known(u: string): (r: string)
    ensures AllInTable(u) ==> r == u
  {
    if u == [] then []
    else (if CharToMorse(u[0]).Some? then [u[0]] else []) + Known(u[1..])
  }

  lemma {:induction false} DecodeMapCodes(u: string)
    ensures DecodeTokens(MapCodes(u)) == Known(u)
  {
    if u != [] {
      DecodeMapCodes(u[1..]);
      assert MapCodes(u) == [CharToMorse(u[0]).GetOr("")] + MapCodes(u[1..]);
      if CharToMorse(u[0]).Some? {
        CodeShape(u[0]);
        MorseToCharInverse(u[0], CharToMorse(u[0]).value);
      }
    }
  }

  /**
   * Round trip: decoding gives back the upper-cased input without the
   * characters the table lacks; with every character in the table, exactly
   * the upper-cased input.
   */
  lemma FromToMorseCode(s: string)
    ensures FromMorseCode(ToMorseCode(s)) == Known(Uppercase(s))
    ensures AllInTable(Uppercase(s)) ==> FromMorseCode(ToMorseCode(s)) == Uppercase(s)
  {
    if s == [] {
      assert Split("") == [""];
    } else {
      MapCodesNoSpaces(Uppercase(s));
      SplitJoin(MapCodes(Uppercase(s)));
      DecodeMapCodes(Uppercase(s));
    }
  }

  /**
   * Unlike `morseToText`, nothing is trimmed: a code followed by a tab is an
   * unknown token and gives "", where `morseToText` gives the character.
   */
  lemma TrailingTab(c: char)
    requires CharToMorse(c).Some?
    ensures FromMorseCode(CharToMorse(c).value + "\t") == ""
    ensures MorseToText(CharToMorse(c).value + "\t") == [c]
  {
    var code := CharToMorse(c).value;
    CodeShape(c);
    assert Plain(code);
    TabToken(code);
    SingleCodeDecodes(c);
    TrimTab(code);
  }

  /** No space and no whitespace: a code or the word separator. */
  predicate Plain(code: string)
  {
    code != [] && forall i :: 0 <= i < |code| ==> code[i] == '.' || code[i] == '-' || code[i] == '/'
  }

  lemma TabToken(code: string)
    requires Plain(code)
    ensures FromMorseCode(code + "\t") == ""
  {
    var s := code + "\t";
    assert ' ' !in s by {
      forall i | 0 <= i < |s| ensures s[i] != ' ' {
        if i < |code| { assert s[i] == code[i]; }
      }
    }
    SplitNoSpace(s);
    NoCodeEndsInTab(s);
    assert DecodeTokens([s][1..]) == "" by { assert [s][1..] == []; }
    assert DecodeTokens([s]) == "";
  }

  lemma NoCodeEndsInTab(s: string)
    requires s != [] && s[|s| - 1] == '\t'
    ensures MorseToChar(s) == None
  {
    if MorseToChar(s).Some? {
      MorseToCharSome(s);
      CodeShape(MorseToChar(s).value);
      assert false;
    }
  }

  lemma TrimTab(code: string)
    requires Plain(code)
    ensures !IsBlank(code + "\t") && Trim(code + "\t") == code
  {
    var s := code + "\t";
    assert s[0] == code[0] && !IsWhitespace(s[0]);
    assert TrimStart(s) == s;
    assert s[..|s| - 1] == code;
    assert TrimEnd(s) == TrimEnd(code);
    assert TrimEnd(code) == code;
  }

  /** One character of `String.caesarEncrypt`: no reduction of `shift`, and Kotlin's `%` keeps the sign. */
  function CaesarChar(c: char, shift: Int32): char
  {
    if IsUpper(c) then (Rem(Wrap(c as int - 'A' as int + shift), 26) + 'A' as int) as char
    else if IsLower(c) then (Rem(Wrap(c as int - 'a' as int + shift), 26) + 'a' as int) as char
    else c
  }

  /**
   * `String.caesarEncrypt`: same length, non-letters unchanged; for a
   * shift from 0 up it agrees with the normalising cipher.
   */
  function CaesarEncrypt(s: string, shift: Int32): (r: string)
    ensures |r| == |s|
    ensures forall i :: 0 <= i < |s| && !IsUpper(s[i]) && !IsLower(s[i]) ==> r[i] == s[i]
    ensures 0 <= shift <= IntMax - 25 ==> r == EncryptionManager.CaesarEncrypt(s, shift)
  {
    if s == [] then []
    else
      CaesarCharAgrees(s[0], shift);
      [CaesarChar(s[0], shift)] + CaesarEncrypt(s[1..], shift)
  }

  lemma CaesarCharAgrees(c: char, shift: Int32)
    ensures 0 <= shift <= IntMax - 25 ==> CaesarChar(c, shift) == EncryptionManager.Rotate(c, shift)
  {
    if 0 <= shift <= IntMax - 25 {
      if IsUpper(c) {
        RemNonNegative(c as int - 'A' as int + shift, 26);
      } else if IsLower(c) {
        RemNonNegative(c as int - 'a' as int + shift, 26);
      }
    }
  }

  /** `String.caesarDecrypt`: encryption by `26 - shift`. */
  function CaesarDecrypt(s: string, shift: Int32): (r: string)
    ensures |r| == |s|
    ensures 0 <= shift <= 26 ==> r == EncryptionManager.CaesarDecrypt(s, shift)
  {
    var r := CaesarEncrypt(s, Wrap(26 - shift));
    assert 0 <= shift <= 26 ==> r == EncryptionManager.CaesarDecrypt(s, shift) by {
      if 0 <= shift <= 26 {
        forall i | 0 <= i < |s| ensures r[i] == EncryptionManager.CaesarDecrypt(s, shift)[i] {
          EncryptionManager.RotateCongruent(s[i], -shift, 1);
        }
      }
    }
    r
  }

  /** For shifts from 0 to 26 decryption undoes encryption. */
  lemma CaesarRoundTrip(s: string, k: Int32)
    requires 0 <= k <= 26
    ensures CaesarDecrypt(CaesarEncrypt(s, k), k) == s
  {
    EncryptionManager.CaesarRoundTrip(s, k);
  }

  /** A negative shift takes a letter out of the alphabet: "A" shifted by -1 is "@". */
  lemma CaesarNegativeShift()
    ensures CaesarEncrypt("A", -1) == "@"
    ensures !IsUpper(CaesarEncrypt("A", -1)[0])
  {
    assert CaesarChar('A', -1) == '@';
  }

  /** A shift above 26 makes `26 - shift` negative, and the round trip fails: "W" comes back as "=". */
  lemma CaesarLargeShift()
    ensures CaesarEncrypt("W", 30) == "A"
    ensures CaesarDecrypt(CaesarEncrypt("W", 30), 30) == "="
  {
    assert CaesarChar('W', 30) == 'A';
    assert CaesarChar('A', -4) == '=';
  }

  /** `Int.clamp`: inside `[min, max]` when the bounds are ordered, and the value itself when already inside. */
  function Clamp(x: int, min: int, max: int): (r: int)
    ensures min <= max ==> min <= r <= max
    ensures min <= x <= max ==> r == x
    ensures r == x || r == min || r == max
  {
    if x < min then min
    else if x > max then max
    else x
  }

  /** Clamping twice is clamping once, and clamping keeps order. */
  lemma ClampProperties(x: int, y: int, min: int, max: int)
    requires min <= max
    ensures Clamp(Clamp(x, min, max), min, max) == Clamp(x, min, max)
    ensures x <= y ==> Clamp(x, min, max) <= Clamp(y, min, max)
  {
  }

  const MinuteMs: int := 60000
  const HourMs: int := 3600000
  const DayMs: int := 86400000
  const WeekMs: int := 604800000

  /**
   * `Long.toTimeAgo`, with the clock reading `now` and the formatted date
   * (`toFormattedDate`) passed in.
   */
  function ToTimeAgo(timestamp: int, now: int, formattedDate: string): (r: string)
    ensures now - timestamp < MinuteMs ==> r == "Just now"
    ensures now - timestamp >= WeekMs ==> r == formattedDate
  {
    var diff := now - timestamp;
    if diff < MinuteMs then "Just now"
    else if diff < HourMs then NatToString(diff / MinuteMs) + " min ago"
    else if diff < DayMs then NatToString(diff / HourMs) + " hours ago"
    else if diff < WeekMs then NatToString(diff / DayMs) + " days ago"
    else formattedDate
  }

  /**
   * Within a week the label is a count and a unit, and the count is at
   * least 1 and below the next unit: 1..59 minutes, 1..23 hours, 1..6 days.
   */
  lemma TimeAgoBuckets(timestamp: int, now: int, formattedDate: string)
    ensures var diff, r := now - timestamp, ToTimeAgo(timestamp, now, formattedDate);
      MinuteMs <= diff < HourMs ==> 1 <= diff / MinuteMs <= 59 && r == NatToString(diff / MinuteMs) + " min ago"
    ensures var diff, r := now - timestamp, ToTimeAgo(timestamp, now, formattedDate);
      HourMs <= diff < DayMs ==> 1 <= diff / HourMs <= 23 && r == NatToString(diff / HourMs) + " hours ago"
    ensures var diff, r := now - timestamp, ToTimeAgo(timestamp, now, formattedDate);
      DayMs <= diff < WeekMs ==> 1 <= diff / DayMs <= 6 && r == NatToString(diff / DayMs) + " days ago"
  {
    var diff := now - timestamp;
    if MinuteMs <= diff < HourMs {
      DivBounds(diff, MinuteMs, 60);
    } else if HourMs <= diff < DayMs {
      DivBounds(diff, HourMs, 24);
    } else if DayMs <= diff < WeekMs {
      DivBounds(diff, DayMs, 7);
    }
  }

  lemma DivBounds(x: int, unit: int, k: int)
    requires 0 < unit && 1 < k && unit <= x < k * unit
    ensures 1 <= x / unit < k
  {
    var q := x / unit;
    assert x == q * unit + x % unit;
  }

  lemma TimeAgoExample()
    ensures ToTimeAgo(0, 30000, "Jan 01, 1970 00:00") == "Just now"
    ensures ToTimeAgo(0, 150000, "Jan 01, 1970 00:00") == "2 min ago"
    ensures ToTimeAgo(0, WeekMs, "Jan 01, 1970 00:00") == "Jan 01, 1970 00:00"
  {
  }
}
