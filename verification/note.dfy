/**
 * `getpianonum` of AudioGeneration/note.py: a note number read from a name
 * such as "A4", "C#6" or "Bb2", documented as the note's key on a piano
 * (A0 is 1). Each part of the name is found by a membership test on the
 * whole string, not by position. The octave term counts octaves from A,
 * while octave numbers change at C, so for the letters C to G the result
 * is 12 above the key (`OctaveJumpAtC`); `KeyNumber` is the corrected count.
 */
module Note {
  import opened Wrappers

  /** `re.search` finds no digit, and `.group` is then called on `None`. */
  datatype NoteError = NoOctave

  /** The letters in the order they are looked for, and the offset each one gives. */
  const Letters: string := "ABCDEFG"
  const Offsets: seq<int> := [1, 3, 4, 6, 8, 9, 11]

  /** The letter offset: the first of A..G (in that order) that occurs anywhere in the name; 0 if none does. */
  function LetterOffset(name: string): (r: int)
    ensures forall k :: 0 <= k < 7 && Letters[k] in name && (forall j :: 0 <= j < k ==> Letters[j] !in name) ==> r == Offsets[k]
    ensures (forall k :: 0 <= k < 7 ==> Letters[k] !in name) ==> r == 0
  {
    assert Letters[0] == 'A' && Letters[1] == 'B' && Letters[2] == 'C' && Letters[3] == 'D'
        && Letters[4] == 'E' && Letters[5] == 'F' && Letters[6] == 'G';
    if 'A' in name then 1
    else if 'B' in name then 3
    else if 'C' in name then 4
    else if 'D' in name then 6
    else if 'E' in name then 8
    else if 'F' in name then 9
    else if 'G' in name then 11
    else 0
  }

  /** '#' raises by a semitone and wins over a lower-case 'b', which lowers; an upper-case 'B' is a letter, never a flat. */
  function Semitone(name: string): (r: int)
    ensures r == 1 <==> '#' in name
    ensures r == -1 <==> '#' !in name && 'b' in name
    ensures r == 0 <==> '#' !in name && 'b' !in name
  {
    if '#' in name then 1 else if 'b' in name then -1 else 0
  }

  /** Only which characters occur matters, not where: swapping two parts of the name changes neither offset. */
  lemma OffsetsIgnorePosition(a: string, b: string)
    ensures LetterOffset(a + b) == LetterOffset(b + a)
    ensures Semitone(a + b) == Semitone(b + a)
  {
    assert forall c :: c in a + b <==> c in b + a by {
      forall c ensures c in a + b <==> c in b + a {
        assert c in a + b <==> c in a || c in b;
        assert c in b + a <==> c in b || c in a;
      }
    }
  }

  predicate IsDigit(c: char)
  {
    '0' <= c <= '9'
  }

  /** Index of the first digit at or after `i`, or `|s|`. */
  function FirstDigitFrom(s: string, i: nat): (r: nat)
    requires i <= |s|
    ensures i <= r <= |s|
    ensures r < |s| ==> IsDigit(s[r])
    ensures forall k :: i <= k < r ==> !IsDigit(s[k])
    decreases |s| - i
  {
    if i == |s| || IsDigit(s[i]) then i else FirstDigitFrom(s, i + 1)
  }

  /** End of the run of digits starting at `i`. */
  function DigitRunEnd(s: string, i: nat): (r: nat)
    requires i <= |s|
    ensures i <= r <= |s|
    ensures forall k :: i <= k < r ==> IsDigit(s[k])
    ensures r < |s| ==> !IsDigit(s[r])
    decreases |s| - i
  {
    if i < |s| && IsDigit(s[i]) then DigitRunEnd(s, i + 1) else i
  }

  /**
   * `re.search('\\d+', name).group(0)`: the leftmost, longest run of digits,
   * or `None` when the name has no digit.
   */
  function OctaveDigits(name: string): (r: Option<string>)
    ensures r.None? <==> forall k :: 0 <= k < |name| ==> !IsDigit(name[k])
    ensures r.Some? ==> exists i, j :: 0 <= i < j <= |name| && r.value == name[i..j]
                          && (forall k :: 0 <= k < i ==> !IsDigit(name[k]))
                          && (forall k :: i <= k < j ==> IsDigit(name[k]))
                          && (j == |name| || !IsDigit(name[j]))
  {
    var i := FirstDigitFrom(name, 0);
    if i == |name| then None
    else
      var j := DigitRunEnd(name, i);
      Some(name[i..j])
  }

  function DigitValue(c: char): nat
  {
    if IsDigit(c) then (c as int) - ('0' as int) else 0
  }

  /** `int(digits)` for a string of decimal digits. */
  function DecimalValue(digits: string): nat
  {
    if |digits| == 0 then 0 else DecimalValue(digits[..|digits| - 1]) * 10 + DigitValue(digits[|digits| - 1])
  }

  /** `getpianonum`: letter offset + semitone + 12 * octave; a name without a digit fails. */
  function PianoNum(name: string): (r: Result<int, NoteError>)
    ensures r.Failure? <==> forall k :: 0 <= k < |name| ==> !IsDigit(name[k])
    ensures r.Success? ==> r.value == LetterOffset(name) + Semitone(name) + 12 * DecimalValue(OctaveDigits(name).value)
  {
    match OctaveDigits(name)
    case None => Failure(NoOctave)
    case Some(digits) => Success(LetterOffset(name) + Semitone(name) + 12 * DecimalValue(digits))
  }

  datatype Accidental = Natural | Sharp | Flat

  function AccidentalText(a: Accidental): string
  {
    match a
    case Natural => ""
    case Sharp => "#"
    case Flat => "b"
  }

  function AccidentalValue(a: Accidental): int
  {
    match a
    case Natural => 0
    case Sharp => 1
    case Flat => -1
  }

  /** The decimal digits of `n`, most significant first, as `str(n)` writes them. */
  function DecimalText(n: nat): (r: string)
    ensures |r| > 0
    ensures forall k :: 0 <= k < |r| ==> IsDigit(r[k])
  {
    var d := ['0' + ((n % 10) as char)];
    if n < 10 then d else DecimalText(n / 10) + d
  }

  lemma {:induction false} DecimalValueOfText(n: nat)
    ensures DecimalValue(DecimalText(n)) == n
  {
    var t := DecimalText(n);
    assert DigitValue(t[|t| - 1]) == n % 10;
    if n >= 10 {
      DecimalValueOfText(n / 10);
      assert t[..|t| - 1] == DecimalText(n / 10);
    }
  }

  /** A note name spelled with its octave's digits: letter, optional accidental, digits. */
  function Spelling(letter: nat, acc: Accidental, digits: string): string
    requires letter < 7
  {
    [Letters[letter]] + AccidentalText(acc) + digits
  }

  /** A non-empty run of decimal digits. */
  predicate IsNumeral(digits: string)
  {
    |digits| > 0 && forall k :: 0 <= k < |digits| ==> IsDigit(digits[k])
  }

  /** The digits of a spelled name are the run `re.search` finds. */
  lemma OctaveDigitsOfSpelling(letter: nat, acc: Accidental, digits: string)
    requires letter < 7 && IsNumeral(digits)
    ensures OctaveDigits(Spelling(letter, acc, digits)) == Some(digits)
  {
    var name := Spelling(letter, acc, digits);
    var prefix := [Letters[letter]] + AccidentalText(acc);
    assert name == prefix + digits;
    assert FirstDigitFrom(name, 0) == |prefix| by {
      assert forall k :: 0 <= k < |prefix| ==> !IsDigit(name[k]);
      assert IsDigit(name[|prefix|]);
    }
    assert DigitRunEnd(name, |prefix|) == |name| by {
      assert forall k :: |prefix| <= k < |name| ==> IsDigit(name[k]);
    }
    assert name[|prefix|..|name|] == digits;
  }

  /** The letter of a spelled name decides its offset: no earlier letter occurs in it. */
  lemma LetterOffsetOfSpelling(letter: nat, acc: Accidental, digits: string)
    requires letter < 7 && IsNumeral(digits)
    ensures LetterOffset(Spelling(letter, acc, digits)) == Offsets[letter]
  {
    var name := Spelling(letter, acc, digits);
    forall j | 0 <= j < letter ensures Letters[j] !in name {
      assert Letters[j] != Letters[letter];
      assert Letters[j] !in AccidentalText(acc);
      assert !IsDigit(Letters[j]);
    }
    assert name[0] == Letters[letter];
  }

  /** The accidental of a spelled name decides its semitone. */
  lemma SemitoneOfSpelling(letter: nat, acc: Accidental, digits: string)
    requires letter < 7 && IsNumeral(digits)
    ensures Semitone(Spelling(letter, acc, digits)) == AccidentalValue(acc)
  {
    var name := Spelling(letter, acc, digits);
    assert '#' !in digits && 'b' !in digits by {
      assert !IsDigit('#') && !IsDigit('b');
    }
    assert '#' in name <==> acc == Sharp by {
      if acc == Sharp { assert name[1] == '#'; }
    }
    assert 'b' in name <==> acc == Flat by {
      if acc == Flat { assert name[1] == 'b'; }
    }
  }

  /** A spelled name gives letter offset + accidental + 12 * the value of its digits. */
  lemma PianoNumOfSpelling(letter: nat, acc: Accidental, digits: string)
    requires letter < 7 && IsNumeral(digits)
    ensures PianoNum(Spelling(letter, acc, digits)).Success?
    ensures PianoNum(Spelling(letter, acc, digits)).value == Offsets[letter] + AccidentalValue(acc) + 12 * DecimalValue(digits)
    ensures LetterOffset(Spelling(letter, acc, digits)) == Offsets[letter]
  {
    OctaveDigitsOfSpelling(letter, acc, digits);
    LetterOffsetOfSpelling(letter, acc, digits);
    SemitoneOfSpelling(letter, acc, digits);
  }

  /** A note name written the usual way: letter, optional accidental, octave number. */
  function NoteName(letter: nat, acc: Accidental, octave: nat): string
    requires letter < 7
  {
    Spelling(letter, acc, DecimalText(octave))
  }

  /** A name written the usual way gives letter offset + accidental + 12 * octave. */
  lemma PianoNumOfNoteName(letter: nat, acc: Accidental, octave: nat)
    requires letter < 7
    ensures PianoNum(NoteName(letter, acc, octave)).Success?
    ensures PianoNum(NoteName(letter, acc, octave)).value == Offsets[letter] + AccidentalValue(acc) + 12 * octave
  {
    var digits := DecimalText(octave);
    assert DecimalValue(digits) == octave by { DecimalValueOfText(octave); }
    assert IsNumeral(digits);
    PianoNumOfSpelling(letter, acc, digits);
  }

  /** "A0", the lowest key. */
  lemma PianoNumA0()
    ensures PianoNum("A0") == Success(1)
  {
    assert Offsets[0] == 1 && DecimalValue("0") == 0;
    assert Spelling(0, Natural, "0") == "A0";
    PianoNumOfSpelling(0, Natural, "0");
  }

  /** "A4", concert A. */
  lemma PianoNumA4()
    ensures PianoNum("A4") == Success(49)
  {
    assert Offsets[0] == 1 && DecimalValue("4") == 4;
    assert Spelling(0, Natural, "4") == "A4";
    PianoNumOfSpelling(0, Natural, "4");
  }

  /** `getpianonum` gives 1 for "A0" and 49 for "A4", the keyboard's numbers for those keys. */
  lemma ExamplesNatural()
    ensures PianoNum("A0") == Success(1)
    ensures PianoNum("A4") == Success(49)
  {
    PianoNumA0();
    PianoNumA4();
  }

  /** "C#6": one semitone above C6. */
  lemma PianoNumCSharp6()
    ensures PianoNum("C#6") == Success(77)
  {
    assert Offsets[2] == 4 && DecimalValue("6") == 6;
    assert Spelling(2, Sharp, "6") == "C#6";
    PianoNumOfSpelling(2, Sharp, "6");
  }

  /** "Bb2": one semitone below B2. */
  lemma PianoNumBFlat2()
    ensures PianoNum("Bb2") == Success(26)
  {
    assert Offsets[1] == 3 && DecimalValue("2") == 2;
    assert Spelling(1, Flat, "2") == "Bb2";
    PianoNumOfSpelling(1, Flat, "2");
  }

  /** `getpianonum` gives 77 for "C#6" (key 65 on a keyboard) and 26 for "Bb2". */
  lemma ExamplesAccidental()
    ensures PianoNum("C#6") == Success(77)
    ensures PianoNum("Bb2") == Success(26)
  {
    PianoNumCSharp6();
    PianoNumBFlat2();
  }

  /** As written, B of one octave and C of the next, adjacent keys, are 13 apart instead of 1. */
  lemma OctaveJumpAtC(octave: string, next: string)
    requires IsNumeral(octave) && IsNumeral(next) && DecimalValue(next) == DecimalValue(octave) + 1
    ensures PianoNum(Spelling(2, Natural, next)).Success? && PianoNum(Spelling(1, Natural, octave)).Success?
    ensures PianoNum(Spelling(2, Natural, next)).value == PianoNum(Spelling(1, Natural, octave)).value + 13
  {
    assert Offsets[1] == 3 && Offsets[2] == 4;
    PianoNumOfSpelling(2, Natural, next);
    PianoNumOfSpelling(1, Natural, octave);
  }

  /** "B3", the key below middle C. */
  lemma PianoNumB3()
    ensures PianoNum("B3") == Success(39)
  {
    assert Offsets[1] == 3 && DecimalValue("3") == 3;
    assert Spelling(1, Natural, "3") == "B3";
    PianoNumOfSpelling(1, Natural, "3");
  }

  /** "C4", middle C. */
  lemma PianoNumC4()
    ensures PianoNum("C4") == Success(52)
  {
    assert Offsets[2] == 4 && DecimalValue("4") == 4;
    assert Spelling(2, Natural, "4") == "C4";
    PianoNumOfSpelling(2, Natural, "4");
  }

  /** "B3" gives 39 and "C4" (middle C, key 40 on a keyboard) gives 52. */
  lemma OctaveJumpExample()
    ensures PianoNum("B3") == Success(39) && PianoNum("C4") == Success(52)
  {
    PianoNumB3();
    PianoNumC4();
  }

  /** The key number on a piano: `getpianonum` with octaves counted from C, as note names count them. */
  function KeyNumber(name: string): Result<int, NoteError>
  {
    match PianoNum(name)
    case Failure(e) => Failure(e)
    case Success(n) => Success(if LetterOffset(name) >= 4 then n - 12 else n)
  }

  /** A spelled name gives its key: octaves start at C, so C to G lose 12. */
  lemma KeyNumberOfSpelling(letter: nat, acc: Accidental, digits: string)
    requires letter < 7 && IsNumeral(digits)
    ensures KeyNumber(Spelling(letter, acc, digits)).Success?
    ensures KeyNumber(Spelling(letter, acc, digits)).value
              == Offsets[letter] + AccidentalValue(acc) + 12 * DecimalValue(digits) - (if letter >= 2 then 12 else 0)
  {
    PianoNumOfSpelling(letter, acc, digits);
    var name := Spelling(letter, acc, digits);
    assert LetterOffset(name) >= 4 <==> letter >= 2 by {
      assert letter < 2 ==> Offsets[letter] < 4;
      assert letter >= 2 ==> Offsets[letter] >= 4;
    }
  }

  /** The key of the natural note with letter index `letter` (0 is A) in the octave spelled `digits`. */
  function NaturalKey(letter: nat, digits: string): Result<int, NoteError>
    requires letter < 7
  {
    KeyNumber(Spelling(letter, Natural, digits))
  }

  /** The letter index (0 is A) of the `a`-th natural note of an octave in keyboard order C, D, E, F, G, A, B. */
  function KeyboardLetter(a: nat): (l: nat)
    requires a < 7
    ensures l < 7
  {
    if a < 5 then a + 2 else a - 5
  }

  /** The natural notes' keys rise through an octave in keyboard order. */
  lemma KeyNumbersRise(a: nat, b: nat, octave: string)
    requires a < b < 7 && IsNumeral(octave)
    ensures NaturalKey(KeyboardLetter(a), octave).Success? && NaturalKey(KeyboardLetter(b), octave).Success?
    ensures NaturalKey(KeyboardLetter(a), octave).value < NaturalKey(KeyboardLetter(b), octave).value
  {
    var la, lb := KeyboardLetter(a), KeyboardLetter(b);
    KeyNumberOfSpelling(la, Natural, octave);
    KeyNumberOfSpelling(lb, Natural, octave);
    KeyboardOffsetsRise(a, b);
  }

  /** Counted from C, the letter offsets grow in keyboard order. */
  lemma KeyboardOffsetsRise(a: nat, b: nat)
    requires a < b < 7
    ensures Offsets[KeyboardLetter(a)] - (if KeyboardLetter(a) >= 2 then 12 else 0)
              < Offsets[KeyboardLetter(b)] - (if KeyboardLetter(b) >= 2 then 12 else 0)
  {
    assert Offsets[0] == 1 && Offsets[1] == 3 && Offsets[2] == 4 && Offsets[3] == 6
        && Offsets[4] == 8 && Offsets[5] == 9 && Offsets[6] == 11;
  }

  /** B of one octave is followed by C of the next, one key higher. */
  lemma KeyNumberBToC(octave: string, next: string)
    requires IsNumeral(octave) && IsNumeral(next) && DecimalValue(next) == DecimalValue(octave) + 1
    ensures NaturalKey(1, octave).Success? && NaturalKey(2, next).Success?
    ensures NaturalKey(2, next).value == NaturalKey(1, octave).value + 1
  {
    assert Offsets[1] == 3 && Offsets[2] == 4;
    KeyNumberOfSpelling(1, Natural, octave);
    KeyNumberOfSpelling(2, Natural, next);
  }

  /** The key of "A0". */
  lemma KeyNumberA0()
    ensures KeyNumber("A0") == Success(1)
  {
    assert Offsets[0] == 1 && DecimalValue("0") == 0;
    assert Spelling(0, Natural, "0") == "A0";
    KeyNumberOfSpelling(0, Natural, "0");
  }

  /** The key of "C4". */
  lemma KeyNumberC4()
    ensures KeyNumber("C4") == Success(40)
  {
    assert Offsets[2] == 4 && DecimalValue("4") == 4;
    assert Spelling(2, Natural, "4") == "C4";
    KeyNumberOfSpelling(2, Natural, "4");
  }

  /** The key of "C8". */
  lemma KeyNumberC8()
    ensures KeyNumber("C8") == Success(88)
  {
    assert Offsets[2] == 4 && DecimalValue("8") == 8;
    assert Spelling(2, Natural, "8") == "C8";
    KeyNumberOfSpelling(2, Natural, "8");
  }

  /** The anchors match the keyboard: A0 is 1, middle C (C4) is 40, the top key C8 is 88. */
  lemma KeyNumberAnchors()
    ensures KeyNumber("A0") == Success(1) && KeyNumber("C4") == Success(40) && KeyNumber("C8") == Success(88)
  {
    KeyNumberA0();
    KeyNumberC4();
    KeyNumberC8();
  }
}
