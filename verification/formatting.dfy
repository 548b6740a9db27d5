/** The formatting helpers of `src/utils.ts`: the Russian plural ending of
    "представитель" after a count, and the initials shown on a contact card. */
module Formatting {
  import opened Wrappers
  import opened Text

  const Singular: string := "ь"       // 1, 21, 31, ... представитель
  const Paucal: string := "я"         // 2-4, 22-24, ... представителя
  const Plural: string := "ей"        // 0, 5-20, 25-30, ... представителей

  // ---------------------------------------------------------------------
  // getPluralForm

  /** The ending of "представител-" after `count`. Counts are array lengths,
      hence natural numbers. */
  function PluralForm(count: nat): (r: string)
    ensures r == Singular || r == Paucal || r == Plural
    ensures r == Singular ==> count % 10 == 1
    ensures r == Paucal ==> 2 <= count % 10 <= 4
  {
    var mod10 := count % 10;
    var mod100 := count % 100;
    if 11 <= mod100 <= 14 then Plural
    else if mod10 == 1 then Singular
    else if 2 <= mod10 <= 4 then Paucal
    else Plural
  }

  /** The grammar rule stated on decimal digits: the teens take the plural;
      otherwise a last digit 1 takes the singular, 2-4 the paucal, and the
      rest the plural. */
  function PluralByDigits(count: nat): string {
    var units := count % 10;
    var tens := (count / 10) % 10;
    if tens == 1 then Plural
    else if units == 1 then Singular
    else if 2 <= units <= 4 then Paucal
    else Plural
  }

  /** The last two digits of a number are its tens digit and its units digit. */
  lemma {:induction false} LastTwoDigits(n: nat)
    ensures n % 100 == ((n / 10) % 10) * 10 + n % 10
  {
    var q := n / 100;
    var m := n % 100;
    assert n == q * 100 + m;
    assert n / 10 == q * 10 + m / 10 by {
      assert n == (q * 10 + m / 10) * 10 + m % 10;
    }
    assert (n / 10) % 10 == m / 10 by {
      assert n / 10 == q * 10 + m / 10;
      assert 0 <= m / 10 < 10;
    }
    assert n % 10 == m % 10 by {
      assert n == (q * 10 + m / 10) * 10 + m % 10;
    }
  }

  /** `getPluralForm` agrees with the digit formulation for every count:
      `count % 100` in 11..14 exactly when the tens digit is 1 and the units
      digit is 1..4, and a tens digit of 1 with units 0 or 5..9 already
      takes the plural. */
  lemma PluralFormByDigits(count: nat)
    ensures PluralForm(count) == PluralByDigits(count)
  {
    LastTwoDigits(count);
  }

  /** The ending depends only on the last two digits. */
  lemma {:induction false} PluralFormPeriodic(count: nat)
    ensures PluralForm(count + 100) == PluralForm(count)
  {
    assert (count + 100) % 100 == count % 100;
    assert (count + 100) % 10 == count % 10;
  }

  /** The cases the widget relies on: 1, 2, 5, 11, 21. */
  lemma PluralFormExamples()
    ensures PluralForm(1) == "ь" && PluralForm(2) == "я" && PluralForm(5) == "ей"
    ensures PluralForm(11) == "ей" && PluralForm(21) == "ь" && PluralForm(0) == "ей"
  {
  }

  // ---------------------------------------------------------------------
  // getInitials

  const Unknown: string := "?"

  /** The first characters of the non-empty words among the first two
      space-separated words, in order. */
  function FirstLetters(words: seq<string>): (r: string)
    ensures |r| <= |words|
  {
    if |words| == 0 then ""
    else if words[0] == "" then FirstLetters(words[1..])
    else [words[0][0]] + FirstLetters(words[1..])
  }

  /** The first two elements of `name.split(' ')` (`slice(0, 2)`). */
  function LeadingWords(name: string): (r: seq<string>)
    ensures 1 <= |r| <= 2
  {
    var words := Split(name, ' ');
    if |words| <= 2 then words else words[..2]
  }

  /** Upper-cased initials of the first two words, or "?" when the name is
      absent or empty or when both leading words are empty. `upper` stands
      for `toUpperCase` applied per character. */
  function GetInitials(name: Option<string>, upper: char -> char): (r: string)
    ensures 1 <= |r| <= 2
    ensures name.None? || name.value == "" ==> r == Unknown
    ensures name.Some? && |name.value| > 0 && name.value[0] != ' ' ==> r[0] == upper(name.value[0])
  {
    if name.None? || name.value == "" then Unknown
    else
      var letters := FirstLetters(LeadingWords(name.value));
      var upperCased := seq(|letters|, i requires 0 <= i < |letters| => upper(letters[i]));
      if upperCased == "" then Unknown else upperCased
  }

  /** A name made of a first word and a second word (each non-empty and
      free of spaces), optionally followed by more words, has the upper-cased
      first letters of those two words as its initials. */
  lemma InitialsOfTwoWords(first: string, second: string, rest: string, upper: char -> char)
    requires first != "" && second != ""
    requires ' ' !in first && ' ' !in second
    ensures GetInitials(Some(first + " " + second), upper) == [upper(first[0]), upper(second[0])]
    ensures GetInitials(Some(first + " " + second + " " + rest), upper) == [upper(first[0]), upper(second[0])]
  {
    InitialsOfFirstWord(first, second, upper);
    InitialsOfFirstWord(first, second + " " + rest, upper);
    assert first + " " + second + " " + rest == first + " " + (second + " " + rest);
  }

  /** A single word gives one initial, the upper-cased first letter. */
  lemma InitialsOfOneWord(w: string, upper: char -> char)
    requires w != "" && ' ' !in w
    ensures GetInitials(Some(w), upper) == [upper(w[0])]
  {
    SplitWithoutSeparator(w, ' ');
    assert LeadingWords(w) == [w];
    assert FirstLetters([w]) == [w[0]] + FirstLetters([]);
  }

  /** Two spaces after the first word make the second of the two leading
      words empty, so whatever follows contributes nothing. */
  lemma InitialsAfterDoubleSpace(first: string, second: string, upper: char -> char)
    requires first != "" && ' ' !in first
    ensures GetInitials(Some(first + "  " + second), upper) == [upper(first[0])]
  {
    InitialsOfFirstWord(first, " " + second, upper);
    assert first + "  " + second == first + " " + (" " + second);
  }

  /** A name whose first word is followed by a space: the first word's
      letter, then the letter of the second word unless that word is empty
      (the name ends in the space, or a second space follows). */
  lemma InitialsOfFirstWord(first: string, tail: string, upper: char -> char)
    requires first != "" && ' ' !in first
    ensures GetInitials(Some(first + " " + tail), upper) ==
            [upper(first[0])] + (if tail == "" || tail[0] == ' ' then [] else [upper(tail[0])])
  {
    var name := first + " " + tail;
    assert name == first + [' '] + tail;
    SplitPeel(first, ' ', tail);
    SplitFirstPiece(tail, ' ');
    var second := Split(tail, ' ')[0];
    assert LeadingWords(name) == [first, second];
    assert [first, second][1..] == [second];
    var one: seq<string> := [second];
    assert one[1..] == [];
    assert FirstLetters(one) == (if second == "" then "" else [second[0]]);
  }

  /** A name that starts with a space has an empty first word, so only the
      next word can contribute; without one the result is "?". */
  lemma InitialsOfLeadingSpace(tail: string, upper: char -> char)
    ensures GetInitials(Some(" " + tail), upper) ==
            if tail == "" || tail[0] == ' ' then Unknown else [upper(tail[0])]
  {
    var name := " " + tail;
    assert name == "" + [' '] + tail;
    SplitPeel("", ' ', tail);
    SplitFirstPiece(tail, ' ');
    var second := Split(tail, ' ')[0];
    assert LeadingWords(name) == ["", second];
    assert ["", second][1..] == [second];
    var one: seq<string> := [second];
    assert one[1..] == [];
    assert FirstLetters(one) == (if second == "" then "" else [second[0]]);
  }

  /** A name that starts with a space has an empty first word, so only the
      second word contributes. */
  lemma InitialsAfterLeadingSpace(second: string, upper: char -> char)
    requires second != "" && ' ' !in second
    ensures GetInitials(Some(" " + second), upper) == [upper(second[0])]
  {
    InitialsOfLeadingSpace(second, upper);
  }
}
