/**
 * The ciphers applied before Morse encoding and after Morse decoding:
 * Caesar, reverse, keyed substitution and Caesar followed by reverse.
 */
module EncryptionManager {
  import opened Strings
  import opened Ints
  import opened Constants
  import opened MorseTranslator

  datatype EncryptionType = NoEncryption | Caesar | Reverse | Custom | Combined

  /** `Enum.name`, the form stored with a saved translation. */
  function TypeName(t: EncryptionType): (r: string)
    ensures r != [] && forall i :: 0 <= i < |r| ==> IsUpper(r[i])
  {
    match t
    case NoEncryption => "NONE"
    case Caesar => "CAESAR"
    case Reverse => "REVERSE"
    case Custom => "CUSTOM"
    case Combined => "COMBINED"
  }

  lemma TypeNamesDistinct(a: EncryptionType, b: EncryptionType)
    requires TypeName(a) == TypeName(b)
    ensures a == b
  {
    assert TypeName(a)[..2] == TypeName(b)[..2];
  }

  /** The untyped key argument: an `Int`, a `String`, anything else, or null. */
  datatype Key = NoKey | IntKey(n: Int32) | StrKey(s: string) | OtherKey(shown: string)

  /** `key as? Int ?: DEFAULT_CAESAR_SHIFT`. */
  function ShiftOf(key: Key): (r: Int32)
    ensures key.IntKey? ==> r == key.n
    ensures !key.IntKey? ==> r == DefaultCaesarShift
  {
    if key.IntKey? then key.n else DefaultCaesarShift
  }

  /** `key as? String ?: ""`. */
  function KeyTextOf(key: Key): (r: string)
    ensures key.StrKey? ==> r == key.s
    ensures !key.StrKey? ==> r == ""
  {
    if key.StrKey? then key.s else ""
  }

  /**
   * Reference rotation: a letter moves `k` places along its own alphabet,
   * wrapping round (mathematical remainder); other characters stay.
   */
  function Rotate(c: char, k: int): char
  {
    if IsUpper(c) then ((c as int - 'A' as int + k) % 26 + 'A' as int) as char
    else if IsLower(c) then ((c as int - 'a' as int + k) % 26 + 'a' as int) as char
    else c
  }

  /** Letters stay letters of the same case, everything else is left exactly as it is. */
  predicate LetterPreserving(text: string, r: string)
  {
    |r| == |text|
    && forall i :: 0 <= i < |text| ==>
      (IsUpper(text[i]) ==> IsUpper(r[i]))
      && (IsLower(text[i]) ==> IsLower(r[i]))
      && (!IsUpper(text[i]) && !IsLower(text[i]) ==> r[i] == text[i])
  }

  lemma ModShift(x: int, q: int)
    ensures (x + 26 * q) % 26 == x % 26
  {
  }

  /** Rotating back by the same amount restores the character. */
  lemma RotateInverse(c: char, k: int)
    ensures Rotate(Rotate(c, k), -k) == c
  {
    if IsUpper(c) || IsLower(c) {
      var base := if IsUpper(c) then 'A' as int else 'a' as int;
      var x := c as int - base;
      var y := (x + k) % 26;
      assert y == x + k - 26 * ((x + k) / 26);
      ModShift(x, -((x + k) / 26));
    }
  }

  /** Shifts that differ by a multiple of 26 rotate alike. */
  lemma RotateCongruent(c: char, a: int, q: int)
    ensures Rotate(c, a + 26 * q) == Rotate(c, a)
  {
    if IsUpper(c) {
      ModShift(c as int - 'A' as int + a, q);
    } else if IsLower(c) {
      ModShift(c as int - 'a' as int + a, q);
    }
  }

  /** One character of `caesarEncrypt`, with the already reduced shift `ns`. */
  function CaesarChar(c: char, ns: int): (r: char)
    requires -26 < ns < 26
    ensures r == Rotate(c, ns)
  {
    if IsUpper(c) then
      RemNonNegative(c as int - 'A' as int + ns + 26, 26);
      ModShift(c as int - 'A' as int + ns, 1);
      (Rem(c as int - 'A' as int + ns + 26, 26) + 'A' as int) as char
    else if IsLower(c) then
      RemNonNegative(c as int - 'a' as int + ns + 26, 26);
      ModShift(c as int - 'a' as int + ns, 1);
      (Rem(c as int - 'a' as int + ns + 26, 26) + 'a' as int) as char
    else c
  }

  function MapCaesar(text: string, ns: int): (r: string)
    requires -26 < ns < 26
    ensures |r| == |text|
    ensures forall i :: 0 <= i < |text| ==> r[i] == Rotate(text[i], ns)
  {
    if text == [] then [] else [CaesarChar(text[0], ns)] + MapCaesar(text[1..], ns)
  }

  lemma RotateLetters(c: char, k: int)
    ensures IsUpper(c) ==> IsUpper(Rotate(c, k))
    ensures IsLower(c) ==> IsLower(Rotate(c, k))
    ensures !IsUpper(c) && !IsLower(c) ==> Rotate(c, k) == c
  {
  }

  /** `caesarEncrypt`: every letter rotated by `shift` modulo 26, whatever the sign or size of `shift`. */
  function CaesarEncrypt(text: string, shift: Int32): (r: string)
    ensures |r| == |text|
    ensures forall i :: 0 <= i < |text| ==> r[i] == Rotate(text[i], shift)
    ensures LetterPreserving(text, r)
  {
    var ns := Rem(shift, 26);
    var r := MapCaesar(text, ns);
    assert forall i :: 0 <= i < |text| ==> r[i] == Rotate(text[i], shift) by {
      forall i | 0 <= i < |text| ensures r[i] == Rotate(text[i], shift) {
        RotateCongruent(text[i], ns, Quot(shift, 26));
      }
    }
    assert LetterPreserving(text, r) by {
      forall i | 0 <= i < |text| {
        RotateLetters(text[i], shift);
      }
    }
    r
  }

  /** `caesarDecrypt`: encryption with the negated shift, Kotlin's `Int` negation included. */
  function CaesarDecrypt(text: string, shift: Int32): (r: string)
    ensures |r| == |text|
    ensures forall i :: 0 <= i < |text| ==> r[i] == Rotate(text[i], Negate(shift))
    ensures LetterPreserving(text, r)
  {
    CaesarEncrypt(text, Negate(shift))
  }

  /** Decryption undoes encryption and encryption undoes decryption, for every shift but `Int.MIN_VALUE`. */
  lemma CaesarRoundTrip(text: string, shift: Int32)
    requires shift != IntMin
    ensures CaesarDecrypt(CaesarEncrypt(text, shift), shift) == text
    ensures CaesarEncrypt(CaesarDecrypt(text, shift), shift) == text
  {
    forall i | 0 <= i < |text| ensures CaesarDecrypt(CaesarEncrypt(text, shift), shift)[i] == text[i] {
      RotateInverse(text[i], shift);
    }
    forall i | 0 <= i < |text| ensures CaesarEncrypt(CaesarDecrypt(text, shift), shift)[i] == text[i] {
      RotateInverse(text[i], -shift);
    }
  }

  /** At `Int.MIN_VALUE` the negation wraps, so decrypting shifts further instead of back: "A" becomes "E". */
  lemma CaesarMinValueShift()
    ensures CaesarEncrypt("A", IntMin) == "C"
    ensures CaesarDecrypt(CaesarEncrypt("A", IntMin), IntMin) == "E"
  {
    assert Rotate('A', IntMin) == 'C';
    assert Rotate('C', IntMin) == 'E';
  }

  /** A shift and the same shift plus 26 encrypt alike. */
  lemma CaesarPeriodic(text: string, shift: Int32)
    requires shift + 26 <= IntMax
    ensures CaesarEncrypt(text, shift + 26) == CaesarEncrypt(text, shift)
  {
    forall i | 0 <= i < |text| ensures CaesarEncrypt(text, shift + 26)[i] == CaesarEncrypt(text, shift)[i] {
      RotateCongruent(text[i], shift, 1);
    }
  }

  /** "Ab z!" with shift 3: letters move on and wrap past 'z'; the space and '!' stay. */
  lemma CaesarExample()
    ensures CaesarEncrypt("Ab z!", 3) == "De c!"
  {
    CaesarBy("Ab z!", 3, "De c!");
  }

  /** A negative shift of more than 26 moves letters back modulo 26. */
  lemma CaesarNegativeExample()
    ensures CaesarEncrypt("D", -29) == "A"
  {
    CaesarBy("D", -29, "A");
  }

  lemma CaesarBy(text: string, shift: Int32, want: string)
    requires |want| == |text| && forall i :: 0 <= i < |text| ==> Rotate(text[i], shift) == want[i]
    ensures CaesarEncrypt(text, shift) == want
  {
  }

  /** `reverseEncrypt`: the text back to front. */
  function ReverseEncrypt(text: string): (r: string)
    ensures |r| == |text|
    ensures forall i :: 0 <= i < |text| ==> r[i] == text[|text| - 1 - i]
  {
    if text == [] then [] else ReverseEncrypt(text[1..]) + [text[0]]
  }

  /** `reverseDecrypt`: the same reversal, which undoes `reverseEncrypt`. */
  function ReverseDecrypt(text: string): (r: string)
    ensures ReverseEncrypt(r) == text
    ensures r == [] <==> text == []
  {
    ReverseEncrypt(text)
  }

  lemma ReverseInvolution(text: string)
    ensures ReverseDecrypt(ReverseEncrypt(text)) == text
  {
  }

  const Alphabet: string := "ABCDEFGHIJKLMNOPQRSTUVWXYZ"

  /** `key.uppercase().take(26)`, for a key of 26 or more characters. */
  function KeyUpper(key: string): (r: string)
    requires |key| >= 26
    ensures |r| == 26
    ensures forall i :: 0 <= i < 26 ==> r[i] == UpperChar(key[i])
  {
    Uppercase(key)[..26]
  }

  /** One character of `customKeyEncrypt`: a letter is replaced by the key character at its alphabet position. */
  function SubstituteChar(c: char, keyUpper: string): char
    requires |keyUpper| == 26
  {
    if IsUpper(c) then
      var index := IndexOf(Alphabet, c);
      if index != -1 then keyUpper[index] else c
    else if IsLower(c) then
      var index := IndexOf(Alphabet, UpperChar(c));
      if index != -1 then LowerChar(keyUpper[index]) else c
    else c
  }

  /** One character of `customKeyDecrypt`: a letter found in the key becomes the alphabet letter at its position. */
  function UnsubstituteChar(c: char, keyUpper: string): char
    requires |keyUpper| == 26
  {
    if IsUpper(c) then
      var index := IndexOf(keyUpper, c);
      if index != -1 then Alphabet[index] else c
    else if IsLower(c) then
      var index := IndexOf(keyUpper, UpperChar(c));
      if index != -1 then LowerChar(Alphabet[index]) else c
    else c
  }

  lemma AlphabetAt(k: int)
    requires 0 <= k < |Alphabet|
    ensures Alphabet[k] as int == 'A' as int + k
  {
  }

  lemma AlphabetIndex(c: char)
    requires IsUpper(c)
    ensures IndexOf(Alphabet, c) == c as int - 'A' as int
  {
    var k := c as int - 'A' as int;
    AlphabetAt(k);
    forall j | 0 <= j < k ensures Alphabet[j] != c {
      AlphabetAt(j);
    }
  }

  lemma SubstituteMeaning(c: char, keyUpper: string)
    requires |keyUpper| == 26
    ensures IsUpper(c) ==> SubstituteChar(c, keyUpper) == keyUpper[c as int - 'A' as int]
    ensures IsLower(c) ==> SubstituteChar(c, keyUpper) == LowerChar(keyUpper[c as int - 'a' as int])
    ensures !IsUpper(c) && !IsLower(c) ==> SubstituteChar(c, keyUpper) == c
  {
    if IsUpper(c) {
      AlphabetIndex(c);
    } else if IsLower(c) {
      AlphabetIndex(UpperChar(c));
    }
  }

  function MapSubstitute(text: string, keyUpper: string): (r: string)
    requires |keyUpper| == 26
    ensures |r| == |text|
    ensures forall i :: 0 <= i < |text| ==> r[i] == SubstituteChar(text[i], keyUpper)
  {
    if text == [] then [] else [SubstituteChar(text[0], keyUpper)] + MapSubstitute(text[1..], keyUpper)
  }

  function MapUnsubstitute(text: string, keyUpper: string): (r: string)
    requires |keyUpper| == 26
    ensures |r| == |text|
    ensures forall i :: 0 <= i < |text| ==> r[i] == UnsubstituteChar(text[i], keyUpper)
  {
    if text == [] then [] else [UnsubstituteChar(text[0], keyUpper)] + MapUnsubstitute(text[1..], keyUpper)
  }

  /**
   * `customKeyEncrypt`: with a key shorter than 26 the text is returned
   * as it is; otherwise each letter is replaced by the upper-cased key
   * character at its alphabet position, lower-cased for a lower-case letter.
   */
  function CustomKeyEncrypt(text: string, key: string): (r: string)
    ensures |r| == |text|
    ensures |key| < 26 ==> r == text
    ensures |key| >= 26 ==> forall i :: 0 <= i < |text| ==>
      (IsUpper(text[i]) ==> r[i] == UpperChar(key[text[i] as int - 'A' as int]))
      && (IsLower(text[i]) ==> r[i] == LowerChar(UpperChar(key[text[i] as int - 'a' as int])))
      && (!IsUpper(text[i]) && !IsLower(text[i]) ==> r[i] == text[i])
  {
    if |key| < 26 then text
    else
      var keyUpper := KeyUpper(key);
      var r := MapSubstitute(text, keyUpper);
      assert forall i :: 0 <= i < |text| ==>
        (IsUpper(text[i]) ==> r[i] == UpperChar(key[text[i] as int - 'A' as int]))
        && (IsLower(text[i]) ==> r[i] == LowerChar(UpperChar(key[text[i] as int - 'a' as int])))
        && (!IsUpper(text[i]) && !IsLower(text[i]) ==> r[i] == text[i]) by {
        forall i | 0 <= i < |text| {
          SubstituteMeaning(text[i], keyUpper);
        }
      }
      r
  }

  /** A letter whose upper-case form occurs in the key. */
  predicate InKey(c: char, keyUpper: string)
  {
    (IsUpper(c) && c in keyUpper) || (IsLower(c) && UpperChar(c) in keyUpper)
  }

  /**
   * `customKeyDecrypt`: with a key shorter than 26 the text is returned
   * as it is; otherwise a letter found in the upper-cased key becomes the
   * alphabet letter at its first position there, in the letter's case, and a
   * letter the key lacks is left alone.
   */
  function CustomKeyDecrypt(text: string, key: string): (r: string)
    ensures |r| == |text|
    ensures |key| < 26 ==> r == text
    ensures |key| >= 26 ==> forall i :: 0 <= i < |text| ==> Unsubstitutes(text[i], r[i], KeyUpper(key))
  {
    if |key| < 26 then text
    else
      var keyUpper := KeyUpper(key);
      var r := MapUnsubstitute(text, keyUpper);
      forall i | 0 <= i < |text|
        ensures Unsubstitutes(text[i], r[i], keyUpper)
      {
        UnsubstituteMeaning(text[i], keyUpper);
      }
      r
  }

  /**
   * `d` is what decryption makes of `c` under the upper-cased key: a letter
   * found in the key becomes the alphabet letter at its first position
   * there, in the letter's case; any other character stays as it is.
   */
  predicate Unsubstitutes(c: char, d: char, keyUpper: string)
  {
    (IsUpper(c) && c in keyUpper ==> IsUpper(d) && FirstAt(keyUpper, c, d as int - 'A' as int))
    && (IsLower(c) && UpperChar(c) in keyUpper ==> IsLower(d) && FirstAt(keyUpper, UpperChar(c), d as int - 'a' as int))
    && (!InKey(c, keyUpper) ==> d == c)
  }

  /** `k` is the first position of `c` in `s`. */
  predicate FirstAt(s: string, c: char, k: int)
  {
    0 <= k < |s| && s[k] == c && forall j :: 0 <= j < k ==> s[j] != c
  }

  lemma UnsubstituteMeaning(c: char, keyUpper: string)
    requires |keyUpper| == 26
    ensures IsUpper(c) && c in keyUpper ==>
      var d := UnsubstituteChar(c, keyUpper);
      IsUpper(d) && FirstAt(keyUpper, c, d as int - 'A' as int) && IndexOf(keyUpper, c) == d as int - 'A' as int
    ensures IsLower(c) && UpperChar(c) in keyUpper ==>
      var d := UnsubstituteChar(c, keyUpper);
      IsLower(d) && FirstAt(keyUpper, UpperChar(c), d as int - 'a' as int)
      && IndexOf(keyUpper, UpperChar(c)) == d as int - 'a' as int
    ensures !InKey(c, keyUpper) ==> UnsubstituteChar(c, keyUpper) == c
  {
    if IsUpper(c) && c in keyUpper {
      var k := IndexOf(keyUpper, c);
      AlphabetAt(k);
    } else if IsLower(c) && UpperChar(c) in keyUpper {
      var k := IndexOf(keyUpper, UpperChar(c));
      AlphabetAt(k);
    }
  }

  /** A key whose first 26 characters, upper-cased, are the 26 letters, each once. */
  predicate AlphabetKey(key: string)
  {
    |key| >= 26
    && (forall i :: 0 <= i < 26 ==> IsUpper(KeyUpper(key)[i]))
    && Distinct(KeyUpper(key))
    && (forall c :: IsUpper(c) ==> c in KeyUpper(key))
  }

  /** With such a key, decryption undoes encryption and encryption undoes decryption. */
  lemma CustomKeyRoundTrip(text: string, key: string)
    requires AlphabetKey(key)
    ensures CustomKeyDecrypt(CustomKeyEncrypt(text, key), key) == text
    ensures CustomKeyEncrypt(CustomKeyDecrypt(text, key), key) == text
  {
    var ku := KeyUpper(key);
    var e := CustomKeyEncrypt(text, key);
    var d := CustomKeyDecrypt(text, key);
    forall i | 0 <= i < |text| ensures CustomKeyDecrypt(e, key)[i] == text[i] {
      SubstituteRoundTrip(text[i], ku);
    }
    forall i | 0 <= i < |text| ensures CustomKeyEncrypt(d, key)[i] == text[i] {
      UnsubstituteRoundTrip(text[i], ku);
    }
  }

  lemma SubstituteRoundTrip(c: char, ku: string)
    requires |ku| == 26 && (forall i :: 0 <= i < 26 ==> IsUpper(ku[i])) && Distinct(ku)
    ensures UnsubstituteChar(SubstituteChar(c, ku), ku) == c
  {
    SubstituteMeaning(c, ku);
    if IsUpper(c) {
      SubstituteUpperBack(c, ku);
    } else if IsLower(c) {
      SubstituteLowerBack(c, ku);
    }
  }

  lemma SubstituteUpperBack(c: char, ku: string)
    requires |ku| == 26 && (forall i :: 0 <= i < 26 ==> IsUpper(ku[i])) && Distinct(ku)
    requires IsUpper(c)
    ensures UnsubstituteChar(ku[c as int - 'A' as int], ku) == c
  {
    var k := c as int - 'A' as int;
    FirstIndexOfKey(ku, k);
    AlphabetAt(k);
  }

  lemma SubstituteLowerBack(c: char, ku: string)
    requires |ku| == 26 && (forall i :: 0 <= i < 26 ==> IsUpper(ku[i])) && Distinct(ku)
    requires IsLower(c)
    ensures UnsubstituteChar(LowerChar(ku[c as int - 'a' as int]), ku) == c
  {
    var k := c as int - 'a' as int;
    var e := LowerChar(ku[k]);
    UpperLowerInverse(ku[k]);
    assert IsLower(e) && !IsUpper(e) && UpperChar(e) == ku[k];
    FirstIndexOfKey(ku, k);
    AlphabetAt(k);
    assert UnsubstituteChar(e, ku) == LowerChar(Alphabet[k]);
  }

  /** In a key without repeats, a key character is found at its own position. */
  lemma FirstIndexOfKey(ku: string, k: int)
    requires Distinct(ku) && 0 <= k < |ku|
    ensures IndexOf(ku, ku[k]) == k
  {
  }

  lemma UnsubstituteRoundTrip(c: char, ku: string)
    requires |ku| == 26 && forall c :: IsUpper(c) ==> c in ku
    ensures SubstituteChar(UnsubstituteChar(c, ku), ku) == c
  {
    if IsUpper(c) {
      UnsubstituteUpperBack(c, ku);
    } else if IsLower(c) {
      UpperLowerInverse(c);
      UnsubstituteLowerBack(c, ku);
    } else {
      UnsubstituteMeaning(c, ku);
      SubstituteMeaning(c, ku);
    }
  }

  lemma UnsubstituteUpperBack(c: char, ku: string)
    requires |ku| == 26 && IsUpper(c) && c in ku
    ensures SubstituteChar(UnsubstituteChar(c, ku), ku) == c
  {
    UnsubstituteMeaning(c, ku);
    var d := UnsubstituteChar(c, ku);
    assert IsUpper(d) && ku[d as int - 'A' as int] == c;
    AlphabetIndex(d);
    assert SubstituteChar(d, ku) == ku[d as int - 'A' as int];
  }

  lemma UnsubstituteLowerBack(c: char, ku: string)
    requires |ku| == 26 && IsLower(c) && UpperChar(c) in ku
    ensures SubstituteChar(UnsubstituteChar(c, ku), ku) == c
  {
    UnsubstituteMeaning(c, ku);
    var d := UnsubstituteChar(c, ku);
    var u := UpperChar(c);
    assert IsLower(d) && ku[d as int - 'a' as int] == u;
    SubstituteMeaning(d, ku);
    assert SubstituteChar(d, ku) == LowerChar(u);
    UpperLowerInverse(c);
  }

  /** Substitution keeps letters letters of the same case when the key is made of letters. */
  lemma CustomKeyLetterPreserving(text: string, key: string)
    requires AlphabetKey(key)
    ensures LetterPreserving(text, CustomKeyEncrypt(text, key))
    ensures LetterPreserving(text, CustomKeyDecrypt(text, key))
  {
    var ku := KeyUpper(key);
    forall i | 0 <= i < |text| ensures IsLower(text[i]) ==> IsLower(CustomKeyEncrypt(text, key)[i]) {
      if IsLower(text[i]) {
        UpperLowerInverse(ku[text[i] as int - 'a' as int]);
      }
    }
    forall i | 0 <= i < |text|
      ensures (IsUpper(text[i]) ==> IsUpper(CustomKeyDecrypt(text, key)[i]))
      && (IsLower(text[i]) ==> IsLower(CustomKeyDecrypt(text, key)[i]))
    {
      if IsLower(text[i]) {
        UpperLowerInverse(text[i]);
        assert UpperChar(text[i]) in ku;
      }
    }
  }

  /** `combinedEncrypt`: Caesar, then reverse. */
  function CombinedEncrypt(text: string, caesarShift: Int32): (r: string)
    ensures |r| == |text|
    ensures forall i :: 0 <= i < |text| ==> r[i] == Rotate(text[|text| - 1 - i], caesarShift)
  {
    ReverseEncrypt(CaesarEncrypt(text, caesarShift))
  }

  /** `combinedDecrypt`: reverse, then Caesar decryption. */
  function CombinedDecrypt(text: string, caesarShift: Int32): (r: string)
    ensures |r| == |text|
    ensures forall i :: 0 <= i < |text| ==> r[i] == Rotate(text[|text| - 1 - i], Negate(caesarShift))
  {
    CaesarDecrypt(ReverseDecrypt(text), caesarShift)
  }

  lemma CombinedRoundTrip(text: string, caesarShift: Int32)
    requires caesarShift != IntMin
    ensures CombinedDecrypt(CombinedEncrypt(text, caesarShift), caesarShift) == text
    ensures CombinedEncrypt(CombinedDecrypt(text, caesarShift), caesarShift) == text
  {
    CaesarRoundTrip(text, caesarShift);
    var c := CaesarEncrypt(text, caesarShift);
    assert ReverseDecrypt(ReverseEncrypt(c)) == c;
    var d := CaesarDecrypt(ReverseDecrypt(text), caesarShift);
    CaesarRoundTrip(ReverseDecrypt(text), caesarShift);
  }

  lemma CombinedExample()
    ensures CombinedEncrypt("HELLO", 5) == "TQQJM"
  {
    CaesarBy("HELLO", 5, "MJQQT");
    ReverseBy("MJQQT", "TQQJM");
  }

  lemma ReverseBy(text: string, want: string)
    requires |want| == |text| && forall i :: 0 <= i < |text| ==> want[i] == text[|text| - 1 - i]
    ensures ReverseEncrypt(text) == want
  {
  }

  /** The cipher step of `encryptAndMorse`. */
  function Encrypt(text: string, t: EncryptionType, key: Key): string
  {
    match t
    case NoEncryption => text
    case Caesar => CaesarEncrypt(text, ShiftOf(key))
    case Reverse => ReverseEncrypt(text)
    case Custom => CustomKeyEncrypt(text, KeyTextOf(key))
    case Combined => CombinedEncrypt(text, ShiftOf(key))
  }

  /** The cipher step of `morseAndDecrypt`. */
  function Decrypt(text: string, t: EncryptionType, key: Key): string
  {
    match t
    case NoEncryption => text
    case Caesar => CaesarDecrypt(text, ShiftOf(key))
    case Reverse => ReverseDecrypt(text)
    case Custom => CustomKeyDecrypt(text, KeyTextOf(key))
    case Combined => CombinedDecrypt(text, ShiftOf(key))
  }

  /** `encryptAndMorse`: the chosen cipher (with the key fallbacks), then Morse encoding. */
  function EncryptAndMorse(text: string, t: EncryptionType, key: Key): (r: string)
    ensures IsValidMorse(r)
  {
    TextToMorseIsValid(Encrypt(text, t, key));
    TextToMorse(Encrypt(text, t, key))
  }

  /** `morseAndDecrypt`: Morse decoding, then the chosen cipher's decryption. */
  function MorseAndDecrypt(morse: string, t: EncryptionType, key: Key): (r: string)
    ensures t == NoEncryption ==> r == MorseToText(morse)
  {
    Decrypt(MorseToText(morse), t, key)
  }

  /**
   * The key fallbacks: no cipher is plain encoding and decoding; Caesar and
   * combined without an `Int` key use shift 3; the keyed cipher without a
   * `String` key gets "" and so changes nothing.
   */
  lemma KeyFallbacks(text: string, morse: string, key: Key)
    ensures EncryptAndMorse(text, NoEncryption, key) == TextToMorse(text)
    ensures MorseAndDecrypt(morse, NoEncryption, key) == MorseToText(morse)
    ensures !key.IntKey? ==>
      EncryptAndMorse(text, Caesar, key) == TextToMorse(CaesarEncrypt(text, DefaultCaesarShift))
      && MorseAndDecrypt(morse, Caesar, key) == CaesarDecrypt(MorseToText(morse), DefaultCaesarShift)
      && EncryptAndMorse(text, Combined, key) == TextToMorse(CombinedEncrypt(text, DefaultCaesarShift))
      && MorseAndDecrypt(morse, Combined, key) == CombinedDecrypt(MorseToText(morse), DefaultCaesarShift)
    ensures !key.StrKey? ==>
      EncryptAndMorse(text, Custom, key) == TextToMorse(text)
      && MorseAndDecrypt(morse, Custom, key) == MorseToText(morse)
  {
  }

  /** The key choices under which the cipher can be undone. */
  predicate Invertible(t: EncryptionType, key: Key)
  {
    match t
    case Caesar => ShiftOf(key) != IntMin
    case Combined => ShiftOf(key) != IntMin
    case Custom => |KeyTextOf(key)| < 26 || AlphabetKey(KeyTextOf(key))
    case _ => true
  }

  lemma UpperHasCode(c: char)
    requires IsUpper(c)
    ensures CharToMorse(c).Some?
  {
    var k := c as int - 'A' as int;
    LettersAt(k);
    assert TableKeys[k] == c;
    TableDomain(c);
  }

  lemma WhitespaceNotLetter(c: char)
    requires IsUpper(c) || IsLower(c)
    ensures !IsWhitespace(c)
  {
  }

  /** A letter-preserving cipher keeps text non-blank and keeps every upper-cased character in the table. */
  lemma PreservingKeepsTable(text: string, r: string)
    requires LetterPreserving(text, r)
    ensures !IsBlank(text) ==> !IsBlank(r)
    ensures AllInTable(Uppercase(text)) ==> AllInTable(Uppercase(r))
  {
    if !IsBlank(text) {
      var i :| 0 <= i < |text| && !IsWhitespace(text[i]);
      if IsUpper(text[i]) || IsLower(text[i]) {
        WhitespaceNotLetter(r[i]);
      }
    }
    if AllInTable(Uppercase(text)) {
      forall i | 0 <= i < |r| ensures CharToMorse(Uppercase(r)[i]).Some? {
        if IsUpper(text[i]) || IsLower(text[i]) {
          UpperHasCode(UpperChar(r[i]));
        } else {
          assert Uppercase(r)[i] == Uppercase(text)[i];
        }
      }
    }
  }

  lemma ReverseKeepsTable(text: string)
    ensures !IsBlank(text) ==> !IsBlank(ReverseEncrypt(text))
    ensures AllInTable(Uppercase(text)) ==> AllInTable(Uppercase(ReverseEncrypt(text)))
  {
    var r := ReverseEncrypt(text);
    if !IsBlank(text) {
      var i :| 0 <= i < |text| && !IsWhitespace(text[i]);
      assert r[|text| - 1 - i] == text[i];
    }
    if AllInTable(Uppercase(text)) {
      forall i | 0 <= i < |r| ensures CharToMorse(Uppercase(r)[i]).Some? {
        assert Uppercase(r)[i] == Uppercase(text)[|text| - 1 - i];
      }
    }
  }

  lemma CaesarCommutesUpper(text: string, shift: Int32)
    ensures Uppercase(CaesarEncrypt(text, shift)) == CaesarEncrypt(Uppercase(text), shift)
  {
    forall i | 0 <= i < |text|
      ensures Uppercase(CaesarEncrypt(text, shift))[i] == CaesarEncrypt(Uppercase(text), shift)[i]
    {
      RotateUpper(text[i], shift);
    }
  }

  lemma RotateUpper(c: char, k: int)
    ensures UpperChar(Rotate(c, k)) == Rotate(UpperChar(c), k)
  {
    if IsLower(c) {
      var x := (c as int - 'a' as int + k) % 26;
      assert Rotate(c, k) as int == x + 'a' as int;
      assert Rotate(UpperChar(c), k) as int == x + 'A' as int;
    }
  }

  lemma ReverseCommutesUpper(text: string)
    ensures Uppercase(ReverseEncrypt(text)) == ReverseEncrypt(Uppercase(text))
  {
  }

  lemma CustomCommutesUpper(text: string, key: string)
    requires |key| < 26 || AlphabetKey(key)
    ensures Uppercase(CustomKeyEncrypt(text, key)) == CustomKeyEncrypt(Uppercase(text), key)
  {
    if |key| >= 26 {
      var ku := KeyUpper(key);
      forall i | 0 <= i < |text|
        ensures Uppercase(CustomKeyEncrypt(text, key))[i] == CustomKeyEncrypt(Uppercase(text), key)[i]
      {
        SubstituteUpper(text[i], ku);
      }
    }
  }

  lemma SubstituteUpper(c: char, ku: string)
    requires |ku| == 26 && forall i :: 0 <= i < 26 ==> IsUpper(ku[i])
    ensures UpperChar(SubstituteChar(c, ku)) == SubstituteChar(UpperChar(c), ku)
  {
    SubstituteMeaning(c, ku);
    if IsLower(c) {
      var k := c as int - 'a' as int;
      var u := UpperChar(c);
      assert IsUpper(u) && u as int - 'A' as int == k;
      SubstituteMeaning(u, ku);
      UpperLowerInverse(ku[k]);
      assert SubstituteChar(c, ku) == LowerChar(ku[k]);
      assert SubstituteChar(u, ku) == ku[k];
    } else if IsUpper(c) {
      assert UpperChar(c) == c && IsUpper(ku[c as int - 'A' as int]);
    } else {
      assert UpperChar(c) == c;
    }
  }

  /**
   * The cipher commutes with upper-casing and then undoes itself: what the
   * Morse stage hands back, the upper-cased ciphertext, decrypts to the
   * upper-cased text.
   */
  lemma DecryptUpperEncrypt(text: string, t: EncryptionType, key: Key)
    requires Invertible(t, key)
    ensures Decrypt(Uppercase(Encrypt(text, t, key)), t, key) == Uppercase(text)
  {
    var u := Uppercase(text);
    match t
    case NoEncryption =>
    case Caesar =>
      CaesarCommutesUpper(text, ShiftOf(key));
      CaesarRoundTrip(u, ShiftOf(key));
    case Reverse =>
      ReverseCommutesUpper(text);
    case Custom =>
      CustomCommutesUpper(text, KeyTextOf(key));
      if |KeyTextOf(key)| >= 26 {
        CustomKeyRoundTrip(u, KeyTextOf(key));
      }
    case Combined =>
      CaesarCommutesUpper(text, ShiftOf(key));
      ReverseCommutesUpper(CaesarEncrypt(text, ShiftOf(key)));
      CombinedRoundTrip(u, ShiftOf(key));
  }

  /** What the cipher produces is still non-blank and still fully encodable. */
  lemma EncryptKeepsTable(text: string, t: EncryptionType, key: Key)
    requires Invertible(t, key)
    ensures !IsBlank(text) ==> !IsBlank(Encrypt(text, t, key))
    ensures AllInTable(Uppercase(text)) ==> AllInTable(Uppercase(Encrypt(text, t, key)))
  {
    match t
    case NoEncryption =>
    case Caesar =>
      PreservingKeepsTable(text, CaesarEncrypt(text, ShiftOf(key)));
    case Reverse =>
      ReverseKeepsTable(text);
    case Custom =>
      if |KeyTextOf(key)| >= 26 {
        CustomKeyLetterPreserving(text, KeyTextOf(key));
        PreservingKeepsTable(text, CustomKeyEncrypt(text, KeyTextOf(key)));
      }
    case Combined =>
      var c := CaesarEncrypt(text, ShiftOf(key));
      PreservingKeepsTable(text, c);
      ReverseKeepsTable(c);
  }

  /**
   * End to end: text that is not blank and whose characters all have codes,
   * encrypted and encoded, then decoded and decrypted with the same cipher
   * and key, comes back upper-cased.
   */
  lemma PipelineRoundTrip(text: string, t: EncryptionType, key: Key)
    requires !IsBlank(text) && AllInTable(Uppercase(text)) && Invertible(t, key)
    ensures MorseAndDecrypt(EncryptAndMorse(text, t, key), t, key) == Uppercase(text)
  {
    var e := Encrypt(text, t, key);
    EncryptKeepsTable(text, t, key);
    TextRoundTrip(e);
    DecryptUpperEncrypt(text, t, key);
  }
}
