/** The payload scheme of qrc.py: `char2time` (decode a letter code back to
    milliseconds), `time2char` (encode a timestamp as thirteen letters) and
    `generate_data` (build the QR payload for a friend, by version). */
module Qrc {
  import opened Radix
  import opened Tables

  /** The Python exceptions the core can raise. `KeyError` carries the
      missing dictionary key; `ValueError` is raised by `int(...)`. */
  datatype Error = KeyError(key: char) | ValueError

  datatype Result<T> = Success(value: T) | Failure(error: Error) {
    predicate IsFailure() { Failure? }
    function PropagateFailure<U>(): Result<U> requires Failure? { Failure(error) }
    function Extract(): T requires Success? { value }
  }

  /** An entry of the configured friend list, `{'id': ..., 'name': ...}`. */
  datatype Friend = Friend(id: string, name: string)

  /** The float `qr_time.timestamp() * 1000`: `whole` is its integer part,
      `fraction` the digits `str` prints after the decimal point. */
  datatype Millis = Millis(whole: nat, fraction: string)

  /** From 1e16 on, `str` of a float switches to exponent notation
      (`1e+16`, `1.2345678901234567e+16`), whose second character is never a
      digit. */
  const ExponentFrom: nat := 10_000_000_000_000_000

  /** `str(qr_time.timestamp() * 1000)` for a float below 1e16: the
      decimal digits of the integer part, the point, then the fraction. */
  function FloatText(t: Millis): (r: string)
    requires t.whole < ExponentFrom
    ensures |r| == |ToRadix(t.whole, 10)| + 1 + |t.fraction|
    ensures r[..|ToRadix(t.whole, 10)|] == ToRadix(t.whole, 10) && r[|ToRadix(t.whole, 10)|] == '.'
  {
    ToRadix(t.whole, 10) + "." + t.fraction
  }

  /** Python's slice `s[:n]`. */
  function Take(s: string, n: nat): (r: string)
    ensures |r| == if |s| <= n then |s| else n
    ensures r == s[..|r|]
  {
    if |s| <= n then s else s[..n]
  }

  /** Python's `sep.join(parts)`. */
  function Join(sep: string, parts: seq<string>): (r: string)
  {
    if |parts| == 0 then "" else if |parts| == 1 then parts[0] else parts[0] + sep + Join(sep, parts[1..])
  }

  lemma JoinThree(sep: string, a: string, b: string, c: string)
    ensures Join(sep, [a, b, c]) == a + sep + b + sep + c
  {
    assert [a, b, c][1..] == [b, c];
    assert [b, c][1..] == [c];
    assert Join(sep, [c]) == c;
    assert Join(sep, [b, c]) == b + sep + c;
  }

  /** Every character of `s` is a key of `dico`. */
  predicate AllKeys(s: string, dico: map<char, string>)
  {
    forall i | 0 <= i < |s| :: s[i] in dico
  }

  /** `''.join([dico[i] for i in s])`: look every character up in `dico`, in
      order, and concatenate the values; the first character that is not a
      key raises `KeyError`. */
  function Substitute(s: string, dico: map<char, string>): (r: Result<string>)
    ensures r.Success? <==> AllKeys(s, dico)
    ensures r.Failure? ==> exists i | 0 <= i < |s| ::
      s[i] !in dico && r.error == KeyError(s[i]) && forall j | 0 <= j < i :: s[j] in dico
  {
    if s == [] then Success("")
    else if s[0] !in dico then Failure(KeyError(s[0]))
    else
      var rest := Substitute(s[1..], dico);
      if rest.Failure? then
        var i :| 0 <= i < |s[1..]| && s[1..][i] !in dico && rest.error == KeyError(s[1..][i])
          && forall j | 0 <= j < i :: s[1..][j] in dico;
        assert s[i + 1] !in dico && forall j | 0 <= j < i + 1 :: s[j] in dico by {
          forall j | 0 <= j < i + 1 ensures s[j] in dico {
            if j > 0 { assert s[j] == s[1..][j - 1]; }
          }
        }
        Failure(rest.error)
      else
        assert forall i | 0 <= i < |s| :: s[i] in dico by {
          forall i | 0 <= i < |s| ensures s[i] in dico {
            if i > 0 { assert s[i] == s[1..][i - 1]; }
          }
        }
        Success(dico[s[0]] + rest.value)
  }

  /** `[LETTRES[int(i)] for i in s]` joined: each decimal digit `d` becomes
      the letter `LETTRES[d]`; any other character `str` prints for a float
      (`.`, `e`, `+`, `-`) makes `int` raise `ValueError`. */
  function Letters(s: string): (r: Result<string>)
    ensures r.Success? <==> IsDecimal(s)
    ensures r.Failure? ==> r.error == ValueError
    ensures r.Success? ==> |r.value| == |s|
    ensures r.Success? ==> forall i | 0 <= i < |s| ::
      NumeralValue(s[i]) < 10 && r.value[i] == Lettres[NumeralValue(s[i])]
  {
    if s == [] then Success("")
    else if !('0' <= s[0] <= '9') then Failure(ValueError)
    else
      DecimalNumeral(s[0]);
      var rest := Letters(s[1..]);
      if rest.Failure? then
        Failure(ValueError)
      else
        var head := Lettres[NumeralValue(s[0])];
        assert forall i | 1 <= i < |s| :: s[i] == s[1..][i - 1];
        Success([head] + rest.value)
  }

  /** `time2char`: the first thirteen characters of the float's decimal
      rendering, each digit replaced by its letter. `time2char` reads
      `LETTRES` directly; the `dico` that `generate_data` receives is not
      used for version 4. */
  function Time2Char(t: Millis): (r: Result<string>)
    ensures r.Failure? ==> r.error == ValueError
    ensures r.Success? ==> |r.value| <= 13 && forall i | 0 <= i < |r.value| :: r.value[i] in Lettres
  {
    if t.whole >= ExponentFrom then Failure(ValueError)
    else Letters(Take(FloatText(t), 13))
  }

  /** The most digits `int` converts from a decimal string
      (`sys.int_info.default_max_str_digits`). */
  const MaxStrDigits: nat := 4300

  /** `int(s)` for a string of ASCII digits; anything else, the empty
      string, and a string of more than `MaxStrDigits` digits raise
      `ValueError`. */
  function ParseInt(s: string): (r: Result<nat>)
    ensures r.Success? <==> s != [] && IsDecimal(s) && |s| <= MaxStrDigits
    ensures r.Failure? ==> r.error == ValueError
    ensures r.Success? ==> r.value < Pow(10, |s|)
    ensures r.Success? && Canonical(s, 10) ==> ToRadix(r.value, 10) == s
  {
    if s != [] && IsDecimal(s) && |s| <= MaxStrDigits then
      DecimalString(s);
      FromRadixBound(s, 10);
      if Canonical(s, 10) then CanonicalRoundTrip(s, 10); Success(FromRadix(s, 10))
      else Success(FromRadix(s, 10))
    else Failure(ValueError)
  }

  /** `char2time` before its final `/ 1000`: the code's characters are
      looked up in `dico`, concatenated and parsed as a decimal integer of
      milliseconds. */
  function Char2Time(code: string, dico: map<char, string>): (r: Result<nat>)
    ensures !AllKeys(code, dico) ==> r.Failure? && exists i | 0 <= i < |code| ::
      code[i] !in dico && r.error == KeyError(code[i]) && forall j | 0 <= j < i :: code[j] in dico
    ensures r.Success? ==> code != []
  {
    var digits :- Substitute(code, dico);
    ParseInt(digits)
  }

  /** `generate_data`: version 4 joins `"4"`, the friend's id and the
      `time2char` code with commas; version 5 appends the `dico`
      substitution of the hex rendering of the whole milliseconds to
      `"4,"` and the id, with no separator; any other version yields `""`. */
  function GenerateData(t: Millis, friend: Friend, dico: map<char, string>, version: int): (r: Result<string>)
    ensures version != 4 && version != 5 ==> r == Success("")
    ensures version == 4 ==> (r.Success? <==> Time2Char(t).Success?)
    ensures version == 5 ==> (r.Success? <==> AllKeys(ToRadix(t.whole, 16), dico))
  {
    if version == 4 then
      var code :- Time2Char(t);
      Success(Join(",", ["4", friend.id, code]))
    else if version == 5 then
      var hex := ToRadix(t.whole, 16);
      var code := Substitute(hex, dico);
      if code.Failure? then Failure(code.error)
      else
        Success("4," + friend.id + code.value)
    else
      Success("")
  }
}
