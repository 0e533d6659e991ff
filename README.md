# qrc.py payload scheme, modelled in Dafny

`qrc.py` builds the text of a QR code for a friend: a marker, the friend's id
and the current time in milliseconds, written in letters. There are two
versions:

- **Version 4:** `time2char` keeps the first thirteen characters of the
  decimal rendering of the millisecond timestamp. It replaces each digit `d`
  by `LETTRES[d]`. The payload is `"4," + id + "," + code`.
- **Version 5:** the whole milliseconds go through `hex(...)[2:]`. Each hex
  digit is replaced through `DICOS['5']` by a letter of `LETTRES5`. The
  payload is `"4," + id + code`, with no separator.

`char2time` reverses version 4: it looks each letter up in `DICOS['4']`,
joins the resulting digits and parses them with `int`.

The project has five modules, one per file:

- `Radix` (radix.dfy): Python's integer renderings. `ToRadix` is
  `str(n)` for base 10 and `hex(n)[2:]` for base 16. It has lower-case
  digits and no leading zeros. `FromRadix(s, 10)` is `int(s)`. The module proves
  the round trips, injectivity, length bounds and the value of a prefix.
- `Tables` (tables.dfy): the constants `LETTRES`, `LETTRES5`, `HEXA` and
  `DICOS`, and proofs of what the two dictionaries map.
- `Qrc` (qrc.dfy): `char2time`, `time2char` and `generate_data`.
  - The Python exceptions they can raise (`KeyError` with the missing
    key, `ValueError` from `int`) are a `Result`.
  - The float `qr_time.timestamp() * 1000` is `Millis(whole, fraction)`:
    its integer part and the digits `str` prints after the point.
- `QrcProperties` (qrc_properties.dfy): the version-4 round trip, the
  exact success condition of `time2char`, both payload layouts, and when a
  payload determines the friend and the time.
- `QrcVectors` (qrc_vectors.dfy): concrete payloads worked out on the
  model. They include two version-5 payloads that coincide, and
  version-5 codes misread by the version-4 decoder.

All the code is pure, so it is modelled with functions and lemmas.

Behaviour of `qrc.py` that the proofs bring out:

- **Short timestamps fail.** Nothing pads the decimal rendering to
  thirteen digits. At 1234 ms, `str(1234.0)[:13]` is `"1234.0"`, and
  `int('.')` raises `ValueError`; see `QrcVectors.ShortTimestampFails`.
- **The alphabets overlap.** `LETTRES5` shares eight letters with
  `LETTRES`; see `Tables.AlphabetsShare`.
- **The version-5 payload carries the marker `4` and no separator.**
  - Two different friends at two different times can share a payload
    (`QrcVectors.V5PayloadCollision`).
  - The payload does determine both when ids avoid the letters of
    `LETTRES5` (`QrcProperties.V5PayloadUnique`).
  - The version-4 decoder reads a version-5 code as a wrong time or
    fails on it (`QrcVectors.V5CodeUnderV4DecoderShifts`,
    `QrcVectors.V5CodeUnderV4DecoderFails`).
- **Long codes fail.** The final `/ 1000` of `char2time` is a float
  division, which raises `OverflowError` once the integer passes the float
  range (about 1.8e311 ms, codes of 312 letters or more). `int` itself
  refuses decimal strings of more than 4300 digits with `ValueError`; see
  `QrcVectors.OverlongCodeFails`. The model keeps the integer, so only the
  second of these limits is in it.

## Model

| member | source | states |
|---|---|---|
| Radix.NumeralValue | qrc.py:51 | the value of a digit character is below 16 and renders back to the same character, as `int(c)` does for one digit |
| Radix.Numeral | qrc.py:77 | the digit character `str(i)` and `hex` print for a value below 16; its contract is stated by `Radix.NumeralValue` and `Radix.NumeralValueAt` |
| Radix.NumeralValueAt | qrc.py:15 | the value of the digit printed for i is i |
| Radix.ToRadix | qrc.py:77 | `str`/`hex` renderings are canonical: digits of the base, no leading zero, and the rendering is `"0"` exactly for zero |
| Radix.ToRadixValue | qrc.py:77 | parsing a rendering gives back the number |
| Radix.FromRadix | qrc.py:34 | `int(s)` of a digit string; its contract is stated by `Radix.FromRadixBound`, `Radix.CanonicalRoundTrip` and `Radix.ToRadixValue` |
| Radix.CanonicalRoundTrip | qrc.py:34 | a canonical digit string is the rendering of the number it parses to |
| Radix.ToRadixInjective | qrc.py:77 | two numbers have the same rendering exactly when they are equal |
| Radix.ToRadixLength | qrc.py:49 | a rendering is longer than k digits exactly when the number is at least base^k |
| Radix.FromRadixBound | qrc.py:34 | a k-digit string parses to less than base^k |
| Radix.PrefixValue | qrc.py:49 | the first k digits of a rendering parse to the number with its remaining digits cut off |
| Radix.DecimalString | qrc.py:51 | a string of ASCII digits is exactly a string of base-10 numerals |
| Tables.LetterValue | qrc.py:7 | a letter `A`..`J` sits at a position below 10 of `LETTRES` |
| Tables.Lettres | qrc.py:7 | `LETTRES`; its contract is stated by `Tables.LettresDistinct`, `Tables.LetterInLettres` and `Tables.LetterValue` |
| Tables.Lettres5 | qrc.py:11 | `LETTRES5`; its contract is stated by `Tables.Lettres5Distinct` and `Tables.AlphabetsShare` |
| Tables.Hexa | qrc.py:12 | `HEXA`; its contract is stated by `Tables.HexaDistinct` and `Tables.HexaListsNumerals` |
| Tables.LetterInLettres | qrc.py:7 | the characters of `LETTRES` are exactly `A`..`J` |
| Tables.LettresDistinct | qrc.py:7 | the letters of `LETTRES` are pairwise distinct |
| Tables.Lettres5Distinct | qrc.py:11 | the sixteen letters of `LETTRES5` are pairwise distinct |
| Tables.HexaDistinct | qrc.py:12 | the sixteen characters of `HEXA` are pairwise distinct |
| Tables.HexaListsNumerals | qrc.py:12 | `HEXA[v]` is the digit `hex` prints for value v |
| Tables.Dico4Entry | qrc.py:15 | `DICOS['4'][LETTRES[i]]` is `str(i)` |
| Tables.Dico4Keys | qrc.py:15 | `DICOS['4']` is defined exactly on the letters of `LETTRES`, that is `A`..`J` |
| Tables.Dico4Bijection | qrc.py:15 | `DICOS['4']` has one-digit values, each the position of its letter; it is injective and its values are exactly `"0"`..`"9"` |
| Tables.Dico5Entry | qrc.py:16 | `DICOS['5'][HEXA[i]]` is `LETTRES5[i]` |
| Tables.Dico5Keys | qrc.py:16 | `DICOS['5']` is defined exactly on the characters of `HEXA` |
| Tables.Dico5Injection | qrc.py:16 | `DICOS['5']` has one-letter values in `LETTRES5` and is injective |
| Tables.HexRenderingInDico5 | qrc.py:77-79 | every character of a `hex(...)[2:]` rendering is a key of `DICOS['5']` |
| Tables.AlphabetsShare | qrc.py:11 | `LETTRES` and `LETTRES5` share exactly the letters `B`..`H` and `J` |
| Tables.DicosKeys | qrc.py:15-16 | `DICOS` has exactly the keys `'4'` and `'5'`, bound to the two dictionaries |
| Tables.Dico4 | qrc.py:15 | the comprehension `{ LETTRES[i]: str(i) }`; its contract is stated by `Tables.Dico4Entry`, `Tables.Dico4Keys` and `Tables.Dico4Bijection` |
| Tables.Dico5 | qrc.py:16 | the comprehension `{ HEXA[i]: LETTRES5[i] }`; its contract is stated by `Tables.Dico5Entry`, `Tables.Dico5Keys` and `Tables.Dico5Injection` |
| Tables.Dicos | qrc.py:15-16 | `DICOS`; its contract is stated by `Tables.DicosKeys` |
| Qrc.Take | qrc.py:49 | the slice `[:13]` is the prefix of length min(13, len) |
| Qrc.FloatText | qrc.py:49 | `str` of the float below 1e16 is the decimal digits of the integer part, then the point, then the fraction |
| Qrc.Join | qrc.py:70 | `sep.join(parts)`; its contract for the three parts of the version-4 payload is stated by `Qrc.JoinThree` |
| Qrc.JoinThree | qrc.py:70 | `','.join` of three parts puts the separator between each pair |
| Qrc.Substitute | qrc.py:34 | the list comprehension `[dico[i] for i in s]`, joined, succeeds exactly when every character is a key; otherwise it raises `KeyError` on the first character that is not one |
| Qrc.Letters | qrc.py:51 | letter conversion succeeds exactly on strings of ASCII digits, giving `LETTRES[d]` for each digit d at the same position; any other character `str` prints for a float (`.`, `e`, `+`, `-`) raises `ValueError` |
| Qrc.Time2Char | qrc.py:38-51 | `time2char` fails only with `ValueError`, and gives at most 13 letters of `LETTRES`; its exact contract is stated by `QrcProperties.Time2CharSpec` |
| Qrc.ParseInt | qrc.py:34 | `int(s)` succeeds exactly on non-empty digit strings of at most 4300 digits; its value has at most `len(s)` digits and renders back to a canonical `s` |
| Qrc.Char2Time | qrc.py:23-36 | a code with a character outside `dico` raises `KeyError` on the first such character; success needs a non-empty code |
| Qrc.GenerateData | qrc.py:53-84 | version 4 succeeds exactly when `time2char` does; version 5 succeeds exactly when every hex digit is a key of `dico`; any other version gives `""` |
| QrcProperties.SubstituteSingleChars | qrc.py:34 | with one-character values, the substitution keeps the length and replaces each character by its value |
| QrcProperties.SubstituteInjective | qrc.py:79 | through an injective one-character dictionary, equal substitutions come from equal strings |
| QrcProperties.LettersDecode | qrc.py:34 | `DICOS['4']` turns the letters of any digit string back into the digits |
| QrcProperties.DecodeDigits | qrc.py:34 | decoding letters of `LETTRES` gives, at each position, the digit of the letter's position |
| QrcProperties.DecodeLetters | qrc.py:51 | re-encoding the decoded digits of a letter code gives the code back |
| QrcProperties.Char2TimeDico4 | qrc.py:34 | with `DICOS['4']`, the integer step of `char2time` (before the `/ 1000`) succeeds exactly on non-empty codes over `A`..`J` of at most 4300 letters; `''` and longer letter codes raise `ValueError`, and any other character raises `KeyError` |
| QrcProperties.Time2CharSpec | qrc.py:38-51 | `time2char` succeeds exactly when 10^12 <= ms < 10^16, with a code of 13 `LETTRES` letters that spell the first 13 digits; otherwise it raises `ValueError` |
| QrcProperties.Time2CharIgnoresFraction | qrc.py:49 | the digits after the point never reach the code |
| QrcProperties.DecodeDecimal | qrc.py:34 | a non-empty digit string of at most 4300 digits, encoded and then decoded, parses to the number it spells |
| QrcProperties.V4RoundTrip | qrc.py:34 | decoding a `time2char` code gives the timestamp without its digits past the thirteenth, whose rendering is the first 13 digits |
| QrcProperties.V4RoundTripExact | qrc.py:38-51 | for thirteen-digit timestamps `char2time(time2char(t))` is t |
| QrcProperties.ThirteenDigits | qrc.py:49 | a timestamp has exactly 13 digits exactly when 10^12 <= ms < 10^13 |
| QrcProperties.V4DecodeThenEncode | qrc.py:51 | every 13-letter code not starting with `A` is the `time2char` code of the number it decodes to |
| QrcProperties.V4Layout | qrc.py:68-70 | the version-4 payload is `"4," + id + "," + code`, and it fails exactly when `time2char` does, with the same error |
| QrcProperties.V4PayloadDeterminesFields | qrc.py:70 | equal version-4 payloads have the same id and the same code |
| QrcProperties.V5Code | qrc.py:75-79 | the version-5 code has one letter per hex digit, all in `LETTRES5` |
| QrcProperties.V5Layout | qrc.py:72-80 | with `DICOS['5']` the version-5 payload always succeeds; it is `"4," + id + code` with `LETTRES5[h]` for each hex digit h |
| QrcProperties.V5CodeInjective | qrc.py:75-79 | two timestamps have the same version-5 code exactly when their whole ms are equal |
| QrcProperties.V5PayloadUnique | qrc.py:80 | when ids contain no `LETTRES5` letter, equal version-5 payloads have the same id and the same ms |
| QrcProperties.SplitConcat | qrc.py:80 | a concatenation splits back uniquely once one part's length is known |
| QrcProperties.Lettres5StartAfter | qrc.py:80 | in id + code the first `LETTRES5` letter stands right after an id that has none |
| QrcProperties.IdBoundary | qrc.py:80 | `"4," + id + code` determines id and code when the id has no `LETTRES5` letter and the code starts with one |
| QrcVectors.Digit | qrc.py:77 | a rendering grows by one digit on the right, `n % base` |
| QrcVectors.DecimalOfVector | qrc.py:49 | `str` of 1700000000123 is `"1700000000123"` |
| QrcVectors.HexOfVector | qrc.py:77 | `hex(1700000000123)[2:]` is `"18bcfe5687b"` |
| QrcVectors.V4Vector | qrc.py:68-70 | at 1700000000123 ms with id `abcd1234`, the code is `BHAAAAAAAABCD`, the payload `4,abcd1234,BHAAAAAAAABCD`, and the code decodes back to the timestamp |
| QrcVectors.V4VectorCode | qrc.py:48-51 | a timestamp whose digits are `1700000000123` has the code `BHAAAAAAAABCD` |
| QrcVectors.LetterCodeOfVector | qrc.py:51 | the letters of the digits `1700000000123` spell `BHAAAAAAAABCD` |
| QrcVectors.V5Vector | qrc.py:72-80 | at 1700000000123 ms with id `abcd1234`, the version-5 payload is `4,abcd1234CKPQTSGHKJP` |
| QrcVectors.CodeOfVector | qrc.py:79 | the `LETTRES5` letters of `18bcfe5687b` spell `CKPQTSGHKJP` |
| QrcVectors.ShortTimestampFails | qrc.py:49-51 | at 1234 ms `time2char` and the version-4 payload raise `ValueError` |
| QrcVectors.OverlongCodeFails | qrc.py:34 | a code of 4301 letters `B` raises `ValueError` in `char2time` |
| QrcVectors.V5PayloadCollision | qrc.py:80 | id `x` at 16 ms and id `xC` at 0 ms both give the version-5 payload `4,xCB` |
| QrcVectors.OneDigitCode | qrc.py:75-79 | below 16 ms the version-5 code is the single letter `LETTRES5[ms]` |
| QrcVectors.TwoDigitCode | qrc.py:75-79 | from 16 to 255 ms the version-5 code is two letters, one per hex digit |
| QrcVectors.V5CodeUnderV4DecoderShifts | qrc.py:34 | below 7 ms the version-4 decoder reads a version-5 code as ms + 1 |
| QrcVectors.V5CodeUnderV4DecoderFails | qrc.py:34 | from 8 to 15 ms the version-4 decoder raises `KeyError` on a version-5 code |
| QrcVectors.Lettres5Head | qrc.py:11 | the first seven letters of `LETTRES5` are those of `LETTRES` shifted by one |
| QrcVectors.Lettres5Tail | qrc.py:15 | the letters `LETTRES5[8..15]` are not keys of `DICOS['4']` |
| QrcVectors.OneMissingKey | qrc.py:34 | a one-character code that is not a key raises `KeyError` on it |
| QrcVectors.OneLetter | qrc.py:34 | the one-letter code `LETTRES[d]` decodes to d |

## Left out

- `create_qrcode` (qrc.py:87-106) is not modelled. It reads the clock with `dt.now()`, calls the external `qrcode.make` renderer, builds a file name with `strftime` and saves the image: all of it is I/O and foreign code.
- The `click` command group and its commands `c` and `d` (qrc.py:108-134) are not modelled. They are command-line glue.
- The `config.friends` import (qrc.py:5) is left out. It is external configuration that is not part of the repository; a friend is the datatype `Friend(id, name)`, which always has an id, so the missing-key case of `friend['id']` does not arise.
- The `click.echo` calls (qrc.py:50, qrc.py:69, qrc.py:73) are left out. They only print.
- `datetime` is not modelled: time zones and `timestamp()` are library behaviour. A time is given directly as its milliseconds.
- Negative timestamps (times before 1970) are not modelled: the milliseconds are a `nat`.
- Qrc.Time2Char: float precision is not modelled. `Millis` takes the integer part and the printed fraction as given. Above 2^53 ms a float cannot hold every integer, and below 1e16 `str` may print a rounded value; the model starts from the printed digits, and from 1e16 on it models the exponent notation as `ValueError`.
- Qrc.Char2Time: returns the integer number of milliseconds, without the final `/ 1000` float division of qrc.py:34. That division raises `OverflowError` once the integer passes the float range (about 1.8e311 ms, codes of 312 letters or more); the model keeps the integer and does not raise it.
- Qrc.ParseInt: models `int` as Python 3.11 and later (and the 2022 security releases of 3.7 to 3.10) do, refusing more than 4300 digits; older releases accept any length. It models `int` only on strings of ASCII digits. With `DICOS['4']` and `DICOS['5']` only ASCII digits and letters can reach it; Python's `int` would also accept surrounding whitespace, a sign, underscores between digits and non-ASCII digits from an arbitrary caller-supplied `dico`, and the model treats those as `ValueError`.
- Qrc.GenerateData: version 5 applies the hex rendering to the integer part of the milliseconds, which is what `int(qr_time.timestamp() * 1000)` gives for the non-negative times the model covers.
