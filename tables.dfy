/** The substitution tables of qrc.py: the version-4 letters, the version-5
    letters and hex digits, and the two dictionaries `DICOS['4']` (letter to
    decimal digit, the decode direction) and `DICOS['5']` (hex digit to
    letter, the encode direction). Dictionary values are Python strings of
    one character, so they are modelled as `string`. */
module Tables {
  import opened Radix

  const Lettres: string := "ABCDEFGHIJ"
  const Lettres5: string := "BCDEFGHJKMNPQRST"
  const Hexa: string := "0123456789abcdef"

  /** A letter of `LETTRES`, which runs from `A` to `J`. */
  predicate IsLetter(c: char)
  {
    'A' <= c <= 'J'
  }

  /** The position of a letter in `LETTRES`. */
  function LetterValue(c: char): (v: nat)
    requires IsLetter(c)
    ensures v < 10 && Lettres[v] == c
  {
    (c as int) - ('A' as int)
  }

  lemma LetterAt(i: nat)
    requires i < 10
    ensures IsLetter(Lettres[i]) && LetterValue(Lettres[i]) == i
  {
  }

  lemma LetterInLettres(c: char)
    ensures IsLetter(c) <==> c in Lettres
  {
    if c in Lettres {
      var i :| 0 <= i < 10 && Lettres[i] == c;
      LetterAt(i);
    }
  }

  /** `{ LETTRES[i]: str(i) for i in range(10) }`: each letter maps to the
      decimal rendering of its position (`Dico4Entry` shows the entries are
      those of the comprehension). */
  const Dico4: map<char, string> := map c | IsLetter(c) :: [Numeral(LetterValue(c))]

  /** `{ HEXA[i]: LETTRES5[i] for i in range(16) }`: each hex digit maps to the
      letter at its position in `LETTRES5` (`Dico5Entry` shows the entries
      are those of the comprehension). */
  const Dico5: map<char, string> := map c | IsDigitChar(c) :: [Lettres5[NumeralValue(c)]]

  /** `DICOS`, keyed by the version number as a string. */
  const Dicos: map<string, map<char, string>> := map["4" := Dico4, "5" := Dico5]

  /** Distinct keys have distinct values. */
  ghost predicate Injective(m: map<char, string>)
  {
    forall a, b | a in m && b in m && a != b :: m[a] != m[b]
  }

  /** Every value is a string of exactly one character. */
  ghost predicate SingleChars(m: map<char, string>)
  {
    forall c | c in m :: |m[c]| == 1
  }

  predicate DistinctChars(s: string)
  {
    forall i, j | 0 <= i < j < |s| :: s[i] != s[j]
  }

  lemma LettresDistinct()
    ensures DistinctChars(Lettres)
  {
  }

  lemma Lettres5Distinct()
    ensures DistinctChars(Lettres5)
  {
  }

  lemma HexaDistinct()
    ensures DistinctChars(Hexa)
  {
  }

  /** Letter `LETTRES[i]` decodes to the digit string `str(i)`. */
  lemma Dico4Entry(i: nat)
    requires i < 10
    ensures Lettres[i] in Dico4 && Dico4[Lettres[i]] == [Numeral(i)] == ToRadix(i, 10)
  {
    LetterAt(i);
    assert ToRadix(i, 10) == [Numeral(i)];
  }

  /** `DICOS['4']` is defined on exactly the letters of `LETTRES`, `A`..`J`. */
  lemma Dico4Keys(c: char)
    ensures c in Dico4 <==> c in Lettres
    ensures c in Dico4 <==> 'A' <= c <= 'J'
  {
    LetterInLettres(c);
  }

  /** `DICOS['4']` is a bijection from `A`..`J` onto the ten one-digit
      strings `"0"`..`"9"`: each letter decodes to the digit of its
      position in `LETTRES`, distinct letters decode to distinct digits, and
      the values are exactly `str(0)`..`str(9)`. */
  lemma Dico4Bijection()
    ensures SingleChars(Dico4) && Injective(Dico4)
    ensures forall c | c in Dico4 :: '0' <= Dico4[c][0] <= '9' && NumeralValue(Dico4[c][0]) == LetterValue(c)
    ensures Dico4.Values == set v | 0 <= v < 10 :: [Numeral(v)]
  {
    forall c | c in Dico4
      ensures |Dico4[c]| == 1 && '0' <= Dico4[c][0] <= '9' && NumeralValue(Dico4[c][0]) == LetterValue(c)
    {
      NumeralValueAt(LetterValue(c));
    }
    forall a, b | a in Dico4 && b in Dico4 && a != b ensures Dico4[a] != Dico4[b] {
      assert NumeralValue(Dico4[a][0]) != NumeralValue(Dico4[b][0]);
    }
    forall v | 0 <= v < 10 ensures [Numeral(v)] in Dico4.Values {
      Dico4Entry(v);
    }
  }

  /** Hex digit `HEXA[i]` encodes to the letter `LETTRES5[i]`. */
  lemma Dico5Entry(i: nat)
    requires i < 16
    ensures Hexa[i] in Dico5 && Dico5[Hexa[i]] == [Lettres5[i]]
  {
    HexaListsNumerals(i);
    NumeralValueAt(i);
  }

  /** `HEXA` lists the numerals in value order. */
  lemma HexaListsNumerals(v: nat)
    requires v < 16
    ensures Hexa[v] == Numeral(v)
  {
  }

  /** `DICOS['5']` is defined on exactly the sixteen characters of `HEXA`. */
  lemma Dico5Keys(c: char)
    ensures c in Dico5 <==> c in Hexa
  {
    if c in Hexa {
      var i :| 0 <= i < 16 && Hexa[i] == c;
      HexaListsNumerals(i);
    } else if IsDigitChar(c) {
      HexaListsNumerals(NumeralValue(c));
    }
  }

  /** `DICOS['5']` is an injection from the hex digits into single letters
      of `LETTRES5`. */
  lemma Dico5Injection()
    ensures SingleChars(Dico5) && Injective(Dico5)
    ensures forall c | c in Dico5 :: Dico5[c][0] in Lettres5
  {
    Lettres5Distinct();
    forall a, b | a in Dico5 && b in Dico5 && a != b ensures Dico5[a] != Dico5[b] {
      var i, j := NumeralValue(a), NumeralValue(b);
      assert i != j;
      assert Dico5[a][0] == Lettres5[i] && Dico5[b][0] == Lettres5[j];
    }
  }

  /** `HEXA` lists the numerals that `hex` prints, in order, so the version-5
      dictionary is defined on every character of a hex rendering. */
  lemma HexRenderingInDico5(n: nat)
    ensures forall i | 0 <= i < |ToRadix(n, 16)| :: ToRadix(n, 16)[i] in Dico5
  {

  }

  /** The two letter alphabets are not disjoint: they share eight letters. */
  lemma AlphabetsShare()
    ensures (set c | c in Lettres && c in Lettres5) == {'B', 'C', 'D', 'E', 'F', 'G', 'H', 'J'}
  {
  }

  lemma DicosKeys()
    ensures Dicos.Keys == {"4", "5"} && Dicos["4"] == Dico4 && Dicos["5"] == Dico5
  {
  }
}
