/** What the payload scheme of qrc.py guarantees, and where it does not: the
    letter codes of both versions, the version-4 round trip through
    `char2time`, and the layouts of the two payloads. */
module QrcProperties {
  import opened Radix
  import opened Tables
  import opened Qrc

  /** With a dictionary of one-character values, a successful substitution
      keeps the length and replaces each character by its value. */
  lemma {:induction false} SubstituteSingleChars(s: string, dico: map<char, string>)
    requires SingleChars(dico) && AllKeys(s, dico)
    ensures Substitute(s, dico).Success?
    ensures |Substitute(s, dico).value| == |s|
    ensures forall i | 0 <= i < |s| :: Substitute(s, dico).value[i] == dico[s[i]][0]
  {
    if s != [] {
      assert AllKeys(s[1..], dico) by {
        forall i | 0 <= i < |s[1..]| ensures s[1..][i] in dico {
          assert s[1..][i] == s[i + 1];
        }
      }
      SubstituteSingleChars(s[1..], dico);
      var rest := Substitute(s[1..], dico).value;
      assert Substitute(s, dico).value == dico[s[0]] + rest;
      forall i | 1 <= i < |s| ensures Substitute(s, dico).value[i] == dico[s[i]][0] {
        assert s[i] == s[1..][i - 1];
      }
    }
  }

  /** Substituting through an injective dictionary of one-character values
      loses nothing: equal outputs come from equal inputs. */
  lemma SubstituteInjective(s: string, u: string, dico: map<char, string>)
    requires SingleChars(dico) && Injective(dico)
    requires Substitute(s, dico).Success? && Substitute(u, dico).Success?
    requires Substitute(s, dico).value == Substitute(u, dico).value
    ensures s == u
  {
    SubstituteSingleChars(s, dico);
    SubstituteSingleChars(u, dico);
    forall i | 0 <= i < |s| ensures s[i] == u[i] {
      assert dico[s[i]] == [dico[s[i]][0]];
      assert dico[u[i]] == [dico[u[i]][0]];
    }
  }

  /** Decoding with `DICOS['4']` undoes the digit-to-letter step of
      `time2char`, for every string of decimal digits. */
  lemma LettersDecode(d: string)
    requires IsDecimal(d)
    ensures Letters(d).Success? && Substitute(Letters(d).value, Dico4) == Success(d)
  {
    var code := Letters(d).value;
    assert AllKeys(code, Dico4) by {
      forall i | 0 <= i < |code| ensures code[i] in Dico4 {
        Dico4Entry(NumeralValue(d[i]));
      }
    }
    Dico4Bijection();
    SubstituteSingleChars(code, Dico4);
    var back := Substitute(code, Dico4).value;
    forall i | 0 <= i < |d| ensures back[i] == d[i] {
      var v := NumeralValue(d[i]);
      Dico4Entry(v);
    }
    assert back == d;
  }

  /** Decoding a code over `LETTRES` with `DICOS['4']` gives one decimal
      digit per letter, the digit of the letter's position. */
  lemma DecodeDigits(code: string)
    requires forall i | 0 <= i < |code| :: IsLetter(code[i])
    ensures Substitute(code, Dico4).Success?
    ensures |Substitute(code, Dico4).value| == |code|
    ensures IsDecimal(Substitute(code, Dico4).value)
    ensures forall i | 0 <= i < |code| ::
      Substitute(code, Dico4).value[i] == Numeral(LetterValue(code[i]))
  {
    Dico4Bijection();
    SubstituteSingleChars(code, Dico4);
  }

  /** Encoding undoes decoding on letter codes: the digits that
      `DICOS['4']` gives back turn into the same letters again. */
  lemma DecodeLetters(code: string)
    requires forall i | 0 <= i < |code| :: IsLetter(code[i])
    ensures Substitute(code, Dico4).Success?
    ensures IsDecimal(Substitute(code, Dico4).value)
    ensures Letters(Substitute(code, Dico4).value) == Success(code)
  {
    DecodeDigits(code);
    var d := Substitute(code, Dico4).value;
    var back := Letters(d).value;
    forall i | 0 <= i < |code| ensures back[i] == code[i] {
      NumeralValueAt(LetterValue(code[i]));
    }
    assert back == code;
  }

  /** `DICOS['4']` decodes a code exactly when it is a non-empty string of
      letters of `LETTRES`, at most `MaxStrDigits` long; the first other
      character raises `KeyError`, and the empty code and a letter code
      too long for `int` raise `ValueError`. */
  lemma Char2TimeDico4(code: string)
    ensures Char2Time(code, Dico4).Success? <==>
      code != [] && |code| <= MaxStrDigits && forall i | 0 <= i < |code| :: IsLetter(code[i])
    ensures code == [] ==> Char2Time(code, Dico4) == Failure(ValueError)
    ensures |code| > MaxStrDigits && (forall i | 0 <= i < |code| :: IsLetter(code[i])) ==>
      Char2Time(code, Dico4) == Failure(ValueError)
    ensures (exists i | 0 <= i < |code| :: !IsLetter(code[i])) ==>
      Char2Time(code, Dico4).Failure? && Char2Time(code, Dico4).error.KeyError?
  {
    if forall i | 0 <= i < |code| :: IsLetter(code[i]) {
      DecodeDigits(code);
    } else {
      assert !AllKeys(code, Dico4);
    }
  }

  /** `10^12`, the smallest number of milliseconds with thirteen digits. */
  lemma PowTwelve()
    ensures Pow(10, 12) == 1_000_000_000_000
  {
    assert Pow(10, 3) == 1_000;
    assert Pow(10, 6) == 1_000_000;
    assert Pow(10, 9) == 1_000_000_000;
  }

  /** `time2char` succeeds exactly for the timestamps whose decimal
      rendering has thirteen to sixteen digits before the point; then its
      code is the letter form of the first thirteen digits. Shorter ones let
      the point into the slice and longer ones are printed with an exponent,
      and `int` raises `ValueError` on either. */
  lemma Time2CharSpec(t: Millis)
    ensures Time2Char(t).Success? <==> 1_000_000_000_000 <= t.whole < ExponentFrom
    ensures Time2Char(t).Failure? ==> Time2Char(t).error == ValueError
    ensures Time2Char(t).Success? ==>
      |ToRadix(t.whole, 10)| >= 13 &&
      Time2Char(t) == Letters(ToRadix(t.whole, 10)[..13])
    ensures Time2Char(t).Success? ==>
      |Time2Char(t).value| == 13 && forall i | 0 <= i < 13 :: Time2Char(t).value[i] in Lettres
  {
    PowTwelve();
    ToRadixLength(t.whole, 10, 12);
    if t.whole < ExponentFrom {
      var digits := ToRadix(t.whole, 10);
      var text := FloatText(t);
      DecimalString(digits);
      if |digits| >= 13 {
        assert Take(text, 13) == digits[..13];
        assert IsDecimal(digits[..13]);
      } else {
        var prefix := Take(text, 13);
        assert prefix[|digits|] == '.';
        assert !IsDecimal(prefix);
      }
    }
  }

  /** The digits after the point never reach the code. */
  lemma Time2CharIgnoresFraction(whole: nat, f: string, g: string)
    ensures Time2Char(Millis(whole, f)) == Time2Char(Millis(whole, g))
  {
    Time2CharSpec(Millis(whole, f));
    Time2CharSpec(Millis(whole, g));
  }

  /** A non-empty string of at most `MaxStrDigits` decimal digits, turned into letters and decoded
      with `DICOS['4']`, parses to the number the digits spell. */
  lemma DecodeDecimal(d: string)
    requires IsDecimal(d) && d != [] && |d| <= MaxStrDigits
    ensures AllNumerals(d, 10)
    ensures Letters(d).Success? && Char2Time(Letters(d).value, Dico4) == Success(FromRadix(d, 10))
  {
    DecimalString(d);
    LettersDecode(d);
  }

  /** The version-4 round trip: decoding a `time2char` code with
      `DICOS['4']` gives back the number its thirteen digits spell, the
      timestamp with its digits past the thirteenth cut off. */
  lemma V4RoundTrip(t: Millis)
    requires Time2Char(t).Success?
    ensures |ToRadix(t.whole, 10)| >= 13
    ensures Char2Time(Time2Char(t).value, Dico4) ==
      Success(t.whole / Pow(10, |ToRadix(t.whole, 10)| - 13))
    ensures Char2Time(Time2Char(t).value, Dico4).Success? &&
      ToRadix(Char2Time(Time2Char(t).value, Dico4).value, 10) == ToRadix(t.whole, 10)[..13]
    ensures |ToRadix(t.whole, 10)| == 13 ==> Char2Time(Time2Char(t).value, Dico4) == Success(t.whole)
  {
    Time2CharSpec(t);
    var digits := ToRadix(t.whole, 10);
    var prefix := digits[..13];
    DecimalString(digits);
    assert IsDecimal(prefix);
    DecodeDecimal(prefix);
    PrefixValue(t.whole, 10, 13);
    assert Canonical(prefix, 10);
    CanonicalRoundTrip(prefix, 10);
    if |digits| == 13 {
      assert prefix == digits;
      ToRadixValue(t.whole, 10);
    }
  }

  /** For the thirteen-digit timestamps, from 10^12 to 10^13 - 1
      milliseconds, the round trip is exact. */
  lemma V4RoundTripExact(t: Millis)
    requires 1_000_000_000_000 <= t.whole < 10_000_000_000_000
    ensures Time2Char(t).Success? && Char2Time(Time2Char(t).value, Dico4) == Success(t.whole)
  {
    Time2CharSpec(t);
    ThirteenDigits(t.whole);
    V4RoundTrip(t);
  }

  /** The timestamps from 10^12 to 10^13 - 1 are those with exactly
      thirteen decimal digits. */
  lemma ThirteenDigits(n: nat)
    ensures |ToRadix(n, 10)| == 13 <==> 1_000_000_000_000 <= n < 10_000_000_000_000
  {
    PowTwelve();
    assert Pow(10, 13) == 10_000_000_000_000;
    ToRadixLength(n, 10, 12);
    ToRadixLength(n, 10, 13);
  }

  /** Every code of thirteen letters of `LETTRES` not starting with `A` is the
      `time2char` code of the number it decodes to. */
  lemma V4DecodeThenEncode(code: string, fraction: string)
    requires |code| == 13 && code[0] != 'A'
    requires forall i | 0 <= i < |code| :: IsLetter(code[i])
    ensures Char2Time(code, Dico4).Success?
    ensures Time2Char(Millis(Char2Time(code, Dico4).value, fraction)) == Success(code)
  {
    DecodeDigits(code);
    DecodeLetters(code);
    var d := Substitute(code, Dico4).value;
    assert LetterValue(code[0]) != 0;
    assert d[0] != '0';
    DecimalString(d);
    assert Canonical(d, 10);
    var n := Char2Time(code, Dico4).value;
    assert ToRadix(n, 10) == d;
    ThirteenDigits(n);
    Time2CharSpec(Millis(n, fraction));
    assert d[..13] == d;
  }

  /** The version-4 payload is `"4," + id + "," + code`, and it fails only
      when `time2char` does, with its error. */
  lemma V4Layout(t: Millis, friend: Friend, dico: map<char, string>)
    ensures GenerateData(t, friend, dico, 4).Success? <==> Time2Char(t).Success?
    ensures Time2Char(t).Failure? ==> GenerateData(t, friend, dico, 4) == Failure(Time2Char(t).error)
    ensures Time2Char(t).Success? ==>
      GenerateData(t, friend, dico, 4).value == "4," + friend.id + "," + Time2Char(t).value
  {
    var code := Time2Char(t);
    if code.Success? {
      JoinThree(",", "4", friend.id, code.value);
      assert "4" + "," == "4,";
    }
  }

  /** A version-4 payload determines the friend's id and the code: the code
      always has thirteen letters, so the id is whatever lies between. */
  lemma V4PayloadDeterminesFields(t: Millis, friend: Friend, u: Millis, other: Friend, dico: map<char, string>)
    requires GenerateData(t, friend, dico, 4).Success? && GenerateData(u, other, dico, 4).Success?
    requires GenerateData(t, friend, dico, 4) == GenerateData(u, other, dico, 4)
    ensures friend.id == other.id && Time2Char(t) == Time2Char(u)
  {
    V4Layout(t, friend, dico);
    V4Layout(u, other, dico);
    Time2CharSpec(t);
    Time2CharSpec(u);
    SplitConcat("4," + friend.id + ",", Time2Char(t).value, "4," + other.id + ",", Time2Char(u).value);
    SplitConcat("4," + friend.id, ",", "4," + other.id, ",");
    SplitConcat("4,", friend.id, "4,", other.id);
  }

  /** The version-5 code: `dico` applied to `hex(ms)[2:]`. */
  function V5Code(whole: nat): (code: string)
    ensures |code| == |ToRadix(whole, 16)|
    ensures forall i | 0 <= i < |code| :: code[i] in Lettres5
  {
    HexRenderingInDico5(whole);
    Dico5Injection();
    SubstituteSingleChars(ToRadix(whole, 16), Dico5);
    Substitute(ToRadix(whole, 16), Dico5).value
  }

  /** With `DICOS['5']` the version-5 payload never fails: it is
      `"4," + id` followed directly by the code, one letter of `LETTRES5`
      per hex digit, and no separator. */
  lemma V5Layout(t: Millis, friend: Friend)
    ensures GenerateData(t, friend, Dico5, 5) == Success("4," + friend.id + V5Code(t.whole))
    ensures forall i | 0 <= i < |ToRadix(t.whole, 16)| ::
      V5Code(t.whole)[i] == Lettres5[NumeralValue(ToRadix(t.whole, 16)[i])]
  {
    HexRenderingInDico5(t.whole);
    Dico5Injection();
    SubstituteSingleChars(ToRadix(t.whole, 16), Dico5);
    forall i | 0 <= i < |ToRadix(t.whole, 16)|
      ensures V5Code(t.whole)[i] == Lettres5[NumeralValue(ToRadix(t.whole, 16)[i])]
    {
      var h := ToRadix(t.whole, 16)[i];
      NumeralValueAt(NumeralValue(h));
      Dico5Entry(NumeralValue(h));
    }
  }

  /** Distinct timestamps get distinct version-5 codes. */
  lemma V5CodeInjective(n: nat, m: nat)
    ensures V5Code(n) == V5Code(m) <==> n == m
  {
    if V5Code(n) == V5Code(m) {
      HexRenderingInDico5(n);
      HexRenderingInDico5(m);
      Dico5Injection();
      SubstituteInjective(ToRadix(n, 16), ToRadix(m, 16), Dico5);
      ToRadixInjective(n, m, 16);
    }
  }

  /** When no id uses a letter of `LETTRES5`, as with lower-case hex ids,
      a version-5 payload determines both the id and the timestamp. */
  lemma V5PayloadUnique(t: Millis, friend: Friend, u: Millis, other: Friend)
    requires forall i | 0 <= i < |friend.id| :: friend.id[i] !in Lettres5
    requires forall i | 0 <= i < |other.id| :: other.id[i] !in Lettres5
    requires GenerateData(t, friend, Dico5, 5) == GenerateData(u, other, Dico5, 5)
    ensures friend.id == other.id && t.whole == u.whole
  {
    V5Layout(t, friend);
    V5Layout(u, other);
    IdBoundary(friend.id, V5Code(t.whole), other.id, V5Code(u.whole));
    V5CodeInjective(t.whole, u.whole);
  }

  /** A concatenation splits back into its parts once the length of one
      part is known. */
  lemma SplitConcat(x: string, a: string, y: string, b: string)
    requires x + a == y + b && (|x| == |y| || |a| == |b|)
    ensures x == y && a == b
  {
    assert |x| == |y|;
    assert x == (x + a)[..|x|];
    assert y == (y + b)[..|y|];
    assert a == (x + a)[|x|..];
    assert b == (y + b)[|y|..];
  }

  /** The position of the first `LETTRES5` letter of `s`, or `|s|`. */
  function Lettres5Start(s: string): (k: nat)
  {
    if s == [] || s[0] in Lettres5 then 0 else 1 + Lettres5Start(s[1..])
  }

  lemma {:induction false} Lettres5StartAfter(id: string, code: string)
    requires forall i | 0 <= i < |id| :: id[i] !in Lettres5
    requires |code| >= 1 && code[0] in Lettres5
    ensures Lettres5Start(id + code) == |id|
  {
    if id != [] {
      assert (id + code)[1..] == id[1..] + code;
      Lettres5StartAfter(id[1..], code);
    }
  }

  /** In `"4," + id + code`, where the code is a non-empty string of
      `LETTRES5` letters and the id has none, the id ends where the first
      `LETTRES5` letter past the head stands. */
  lemma IdBoundary(id: string, code: string, id': string, code': string)
    requires forall i | 0 <= i < |id| :: id[i] !in Lettres5
    requires forall i | 0 <= i < |id'| :: id'[i] !in Lettres5
    requires |code| >= 1 && code[0] in Lettres5 && |code'| >= 1 && code'[0] in Lettres5
    requires "4," + id + code == "4," + id' + code'
    ensures id == id' && code == code'
  {
    assert "4," + id + code == "4," + (id + code);
    assert "4," + id' + code' == "4," + (id' + code');
    SplitConcat("4,", id + code, "4,", id' + code');
    Lettres5StartAfter(id, code);
    Lettres5StartAfter(id', code');
    SplitConcat(id, code, id', code');
  }
}
