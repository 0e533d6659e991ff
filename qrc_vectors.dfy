/** Concrete payloads of qrc.py, worked out on the model: a timestamp too
    short for `time2char`, a code too long for `int`, two version-5
    payloads that coincide, and a version-5 code read by the version-4
    decoder. */
module QrcVectors {
  import opened Radix
  import opened Tables
  import opened Qrc
  import opened QrcProperties

  /** A code of 4301 letters `B` is letters only, but its 4301 digits are
      more than `int` converts, so `char2time` raises `ValueError`. */
  lemma OverlongCodeFails(code: string)
    requires |code| == 4301 && forall i | 0 <= i < |code| :: code[i] == 'B'
    ensures Char2Time(code, Dico4) == Failure(ValueError)
  {
    Char2TimeDico4(code);
  }

  /** One more digit on the right of a rendering. */
  lemma Digit(n: nat, base: nat, init: string)
    requires 2 <= base <= 16 && n >= base && ToRadix(n / base, base) == init
    ensures ToRadix(n, base) == init + [Numeral(n % base)]
  {
  }

  /** `1700000000123` ms, in November 2023, written in decimal. */
  lemma DecimalOfVector()
    ensures ToRadix(1700000000123, 10) == "1700000000123"
  {
    Digit(17, 10, "1");
    Digit(170, 10, "17");
    Digit(1700, 10, "170");
    Digit(17000, 10, "1700");
    Digit(170000, 10, "17000");
    Digit(1700000, 10, "170000");
    Digit(17000000, 10, "1700000");
    Digit(170000000, 10, "17000000");
    Digit(1700000000, 10, "170000000");
    Digit(17000000001, 10, "1700000000");
    Digit(170000000012, 10, "17000000001");
    Digit(1700000000123, 10, "170000000012");
  }

  /** The same timestamp as `hex` prints it, without the `0x`. */
  lemma HexOfVector()
    ensures ToRadix(1700000000123, 16) == "18bcfe5687b"
  {
    Digit(24, 16, "1");
    Digit(395, 16, "18");
    Digit(6332, 16, "18b");
    Digit(101327, 16, "18bc");
    Digit(1621246, 16, "18bcf");
    Digit(25939941, 16, "18bcfe");
    Digit(415039062, 16, "18bcfe5");
    Digit(6640625000, 16, "18bcfe56");
    Digit(106250000007, 16, "18bcfe568");
    Digit(1700000000123, 16, "18bcfe5687");
  }

  /** Version 4 at `1700000000123.0` ms: the thirteen digits become
      `BHAAAAAAAABCD`, which decodes back to the timestamp. */
  lemma V4Vector(t: Millis, friend: Friend)
    requires t.whole == 1700000000123 && friend.id == "abcd1234"
    ensures Time2Char(t) == Success("BHAAAAAAAABCD")
    ensures GenerateData(t, friend, Dico4, 4) == Success("4,abcd1234,BHAAAAAAAABCD")
    ensures Char2Time("BHAAAAAAAABCD", Dico4) == Success(1700000000123)
  {
    DecimalOfVector();
    V4VectorCode(t);
    V4Layout(t, friend, Dico4);
    V4Head();
    V4RoundTripExact(t);
  }

  lemma V4VectorCode(t: Millis)
    requires ToRadix(t.whole, 10) == "1700000000123"
    ensures Time2Char(t) == Success("BHAAAAAAAABCD")
  {
    ThirteenDigits(t.whole);
    Time2CharSpec(t);
    var d := ToRadix(t.whole, 10);
    assert d[..13] == d;
    LetterCodeOfVector(d, Time2Char(t).value);
  }

  /** Letter by letter, the decimal digits `1700000000123` read
      `BHAAAAAAAABCD` in `LETTRES`. */
  lemma LetterCodeOfVector(d: string, code: string)
    requires d == "1700000000123" && |code| == 13
    requires forall i | 0 <= i < |d| :: code[i] == Lettres[NumeralValue(d[i])]
    ensures code == "BHAAAAAAAABCD"
  {
    forall i | 0 <= i < 13 ensures code[i] == "BHAAAAAAAABCD"[i] {
      NumeralValueAt(NumeralValue(d[i]));
    }
  }

  lemma V4Head()
    ensures "4," + "abcd1234" + "," + "BHAAAAAAAABCD" == "4,abcd1234,BHAAAAAAAABCD"
  {
  }

  /** Version 5 at the same timestamp: the hex digits `18bcfe5687b` become
      `CKPQTSGHKJP`, appended to `"4,"` and the id with no separator. */
  lemma V5Vector(t: Millis, friend: Friend)
    requires t.whole == 1700000000123 && friend.id == "abcd1234"
    ensures GenerateData(t, friend, Dico5, 5) == Success("4,abcd1234CKPQTSGHKJP")
  {
    HexOfVector();
    V5Layout(t, friend);
    CodeOfVector(ToRadix(t.whole, 16), V5Code(t.whole));
    V5Head();
  }

  /** Letter by letter, the hex digits `18bcfe5687b` read `CKPQTSGHKJP` in
      `LETTRES5`. */
  lemma CodeOfVector(h: string, code: string)
    requires h == "18bcfe5687b" && |code| == 11
    requires forall i | 0 <= i < |h| :: code[i] == Lettres5[NumeralValue(h[i])]
    ensures code == "CKPQTSGHKJP"
  {
    forall i | 0 <= i < 11 ensures code[i] == "CKPQTSGHKJP"[i] {
      NumeralValueAt(NumeralValue(h[i]));
    }
  }

  lemma V5Head()
    ensures "4," + "abcd1234" + "CKPQTSGHKJP" == "4,abcd1234CKPQTSGHKJP"
  {
  }

  /** At `1234.0` ms the decimal rendering `1234.0` is shorter than thirteen
      characters, so `time2char` meets the point and fails with
      `ValueError`, and so does the version-4 payload. */
  lemma ShortTimestampFails()
    ensures Time2Char(Millis(1234, "0")) == Failure(ValueError)
    ensures GenerateData(Millis(1234, "0"), Friend("abcd1234", "Alice"), Dico4, 4) == Failure(ValueError)
  {
    Time2CharSpec(Millis(1234, "0"));
    V4Layout(Millis(1234, "0"), Friend("abcd1234", "Alice"), Dico4);
  }

  /** Without a separator, two different friends at two different times can
      share a version-5 payload: id `x` at 16 ms (hex `10`, code `CB`) and id
      `xC` at 0 ms (hex `0`, code `B`) both give `4,xCB`. */
  lemma V5PayloadCollision(t: Millis, friend: Friend, u: Millis, other: Friend)
    requires t.whole == 16 && friend.id == "x"
    requires u.whole == 0 && other.id == "xC"
    ensures friend.id != other.id && t.whole != u.whole
    ensures GenerateData(t, friend, Dico5, 5) == GenerateData(u, other, Dico5, 5) == Success("4,xCB")
  {
    OneDigitCode(u.whole);
    TwoDigitCode(t.whole);
    CollidingCodes();
    assert V5Code(t.whole) == "CB";
    assert V5Code(u.whole) == "B";
    V5Layout(t, friend);
    V5Layout(u, other);
    CollidingHeads();
  }

  lemma CollidingCodes()
    ensures [Lettres5[1], Lettres5[0]] == "CB" && [Lettres5[0]] == "B"
  {
  }

  /** Below 16 the hex rendering is one digit and the code one letter. */
  lemma OneDigitCode(n: nat)
    requires n < 16
    ensures V5Code(n) == [Lettres5[n]]
  {
    assert ToRadix(n, 16) == [Numeral(n)];
    V5Layout(Millis(n, ""), Friend("", ""));
    NumeralValueAt(n);
  }

  /** From 16 to 255 the hex rendering is two digits and the code two
      letters. */
  lemma TwoDigitCode(n: nat)
    requires 16 <= n < 256
    ensures V5Code(n) == [Lettres5[n / 16], Lettres5[n % 16]]
  {
    Digit(n, 16, [Numeral(n / 16)]);
    V5Layout(Millis(n, ""), Friend("", ""));
    NumeralValueAt(n / 16);
    NumeralValueAt(n % 16);
  }

  lemma CollidingHeads()
    ensures "4," + "x" + "CB" == "4," + "xC" + "B" == "4,xCB"
  {
  }

  /** A version-5 payload carries the version-4 marker `4`, but
      `char2time` with `DICOS['4']` misreads its code. For a timestamp below
      7 ms the code is the single letter `LETTRES5[n]`, which is the
      version-4 letter of `n + 1`. */
  lemma V5CodeUnderV4DecoderShifts(n: nat)
    requires n < 7
    ensures Char2Time(V5Code(n), Dico4) == Success(n + 1)
  {
    OneDigitCode(n);
    Lettres5Head(n);
    assert V5Code(n) == [Lettres[n + 1]];
    OneLetter(n + 1);
  }

  /** From 8 to 15 ms the single letter of the version-5 code is no key of
      `DICOS['4']`, so decoding it raises `KeyError`. */
  lemma V5CodeUnderV4DecoderFails(n: nat)
    requires 8 <= n < 16
    ensures Char2Time(V5Code(n), Dico4) == Failure(KeyError(Lettres5[n]))
  {
    OneDigitCode(n);
    Lettres5Tail(n);
    OneMissingKey(Lettres5[n], Dico4);
  }

  lemma Lettres5Head(n: nat)
    requires n < 7
    ensures Lettres5[n] == Lettres[n + 1]
  {
  }

  lemma Lettres5Tail(n: nat)
    requires 8 <= n < 16
    ensures Lettres5[n] !in Dico4
  {
    assert 'K' <= Lettres5[n] <= 'T';
    Dico4Keys(Lettres5[n]);
  }

  /** A one-character code that is not a key raises `KeyError` on it. */
  lemma OneMissingKey(c: char, dico: map<char, string>)
    requires c !in dico
    ensures Char2Time([c], dico) == Failure(KeyError(c))
  {
  }

  /** The one-letter version-4 code of a digit decodes to that digit. */
  lemma OneLetter(d: nat)
    requires d < 10
    ensures Char2Time([Lettres[d]], Dico4) == Success(d)
  {
    var s := [Numeral(d)];
    NumeralValueAt(d);
    DecodeDecimal(s);
    assert Letters(s).value == [Lettres[d]];
    assert FromRadix(s, 10) == d by {
      assert s[..0] == [];
    }
  }
}
