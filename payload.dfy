/**
 * The callback payload carried by every answer button, `"<question id>:<option index>"`
 * (bot.py, send_quiz_to_user), and its decoding in the answer handler, which splits on
 * every `:` and unpacks exactly two parts. The option index travels as the decimal text of
 * a natural number and comes back through Python's `int(...)`.
 */
module Payload {
  import opened Wrappers

  const Separator: char := ':'

  datatype PayloadError = MalformedPayload

  /** Number of occurrences of `c` in `s`. */
  function Occurrences(s: string, c: char): nat
  {
    if s == [] then 0 else (if s[0] == c then 1 else 0) + Occurrences(s[1..], c)
  }

  /** Python's `s.split(":")`: the pieces between separators, always at least one. */
  function Split(s: string): (parts: seq<string>)
    ensures |parts| >= 1
  {
    if s == [] then [""]
    else
      var rest := Split(s[1..]);
      if s[0] == Separator then [""] + rest
      else [[s[0]] + rest[0]] + rest[1..]
  }

  /** The inverse of Split: the pieces glued back with the separator. */
  function Join(parts: seq<string>): string
    requires |parts| >= 1
  {
    if |parts| == 1 then parts[0] else parts[0] + [Separator] + Join(parts[1..])
  }

  /** Split cuts at every separator and at nothing else. */
  lemma {:induction false} SplitJoin(s: string)
    ensures Join(Split(s)) == s
    ensures forall k :: 0 <= k < |Split(s)| ==> Separator !in Split(s)[k]
    ensures |Split(s)| == Occurrences(s, Separator) + 1
  {
    if s != [] {
      SplitJoin(s[1..]);
      var rest := Split(s[1..]);
      if s[0] == Separator {
        assert Split(s)[1..] == rest;
      } else {
        var parts := Split(s);
        assert parts[1..] == rest[1..];
        if |rest| == 1 {
          assert Join(parts) == [s[0]] + rest[0];
        } else {
          assert Join(parts) == [s[0]] + (rest[0] + [Separator] + Join(rest[1..]));
        }
        forall k | 0 <= k < |parts|
          ensures Separator !in parts[k]
        {
          if k > 0 { assert parts[k] == rest[k]; }
        }
      }
    }
  }

  /** A piece with no separator in it splits to itself. */
  lemma {:induction false} SplitPlain(s: string)
    requires Separator !in s
    ensures Split(s) == [s]
  {
    if s != [] {
      SplitPlain(s[1..]);
      assert [s[0]] + s[1..] == s;
    }
  }

  /** A separator-free prefix followed by the separator becomes the first piece. */
  lemma {:induction false} SplitAfterPrefix(a: string, b: string)
    requires Separator !in a
    ensures Split(a + [Separator] + b) == [a] + Split(b)
  {
    var s := a + [Separator] + b;
    if a == [] {
      assert s[1..] == b;
    } else {
      assert s[1..] == a[1..] + [Separator] + b;
      SplitAfterPrefix(a[1..], b);
      assert [a[0]] + a[1..] == a;
    }
  }

  // ---------------------------------------------------------------- decimal numbers

  predicate IsDigit(c: char)
  {
    '0' <= c <= '9'
  }

  predicate AllDigits(s: string)
  {
    forall k :: 0 <= k < |s| ==> IsDigit(s[k])
  }

  function DigitChar(d: nat): (c: char)
    requires d < 10
    ensures IsDigit(c)
  {
    ('0' as int + d) as char
  }

  /** The value of a string of decimal digits, most significant first. */
  function DigitsValue(s: string): nat
    requires AllDigits(s)
  {
    if s == [] then 0
    else 10 * DigitsValue(s[..|s| - 1]) + (s[|s| - 1] as int - '0' as int)
  }

  /** Python's `str(n)` for a natural number `n`: its decimal digits, no sign. */
  function NatToString(n: nat): (s: string)
    ensures |s| >= 1 && AllDigits(s)
  {
    if n < 10 then [DigitChar(n)] else NatToString(n / 10) + [DigitChar(n % 10)]
  }

  /**
   * Python's `int(s)` on the strings the model considers: an optional `+` or `-`
   * followed by at least one ASCII digit. Anything else raises, here `None`.
   */
  function ParseInt(s: string): (r: Option<int>)
    ensures r.Some? ==> |s| >= 1
  {
    if |s| >= 2 && (s[0] == '+' || s[0] == '-') && AllDigits(s[1..]) then
      var v: int := DigitsValue(s[1..]);
      Some(if s[0] == '-' then -v else v)
    else if |s| >= 1 && AllDigits(s) then
      Some(DigitsValue(s))
    else
      None
  }

  /** Reading back the decimal text of `n` gives `n`. */
  lemma {:induction false} DigitsRoundTrip(n: nat)
    ensures DigitsValue(NatToString(n)) == n
  {
    var s := NatToString(n);
    if n >= 10 {
      DigitsRoundTrip(n / 10);
      assert s[..|s| - 1] == NatToString(n / 10);
    }
  }

  /** `int(str(n)) == n` for every natural `n`. */
  lemma ParseIntOfNatToString(n: nat)
    ensures ParseInt(NatToString(n)) == Some(n)
  {
    DigitsRoundTrip(n);
  }

  // ---------------------------------------------------------------- the payload

  /** `f"{q['id']}:{i}"` for the i-th option of the question with identifier `id`. */
  function Encode(id: string, i: nat): (p: string)
    ensures Occurrences(p, Separator) >= 1
  {
    OccurrencesAppend(id, [Separator] + NatToString(i));
    assert id + [Separator] + NatToString(i) == id + ([Separator] + NatToString(i));
    id + [Separator] + NatToString(i)
  }

  lemma {:induction false} OccurrencesAppend(a: string, b: string)
    ensures Occurrences(a + b, Separator) == Occurrences(a, Separator) + Occurrences(b, Separator)
  {
    if a == [] {
      assert a + b == b;
    } else {
      assert (a + b)[1..] == a[1..] + b;
      OccurrencesAppend(a[1..], b);
    }
  }

  /**
   * `question_id, selected = data.split(":")`: succeeds exactly when the split yields two
   * pieces, i.e. when the payload holds exactly one separator.
   */
  function Decode(data: string): (r: Result<(string, string), PayloadError>)
    ensures r.Success? <==> Occurrences(data, Separator) == 1
    ensures r.Success? ==> data == r.value.0 + [Separator] + r.value.1
    ensures r.Success? ==> Separator !in r.value.0 && Separator !in r.value.1
  {
    var parts := Split(data);
    SplitJoin(data);
    if |parts| == 2 then
      assert Join(parts) == parts[0] + [Separator] + parts[1];
      Success((parts[0], parts[1]))
    else
      Failure(MalformedPayload)
  }

  /** The round trip: a button for option `i` decodes to the identifier and `str(i)`. */
  lemma DecodeEncode(id: string, i: nat)
    requires Separator !in id
    ensures Decode(Encode(id, i)) == Success((id, NatToString(i)))
  {
    SplitAfterPrefix(id, NatToString(i));
    SplitPlain(NatToString(i));
  }

  /** An identifier with a separator in it produces a payload the handler cannot unpack. */
  lemma DecodeEncodeColonId(id: string, i: nat)
    requires Separator in id
    ensures Decode(Encode(id, i)).Failure?
  {
    OccurrencesAppend(id, [Separator] + NatToString(i));
    OccurrencesPositive(id);
    assert id + [Separator] + NatToString(i) == id + ([Separator] + NatToString(i));
  }

  lemma {:induction false} OccurrencesPositive(s: string)
    requires Separator in s
    ensures Occurrences(s, Separator) >= 1
  {
    if s[0] != Separator {
      OccurrencesPositive(s[1..]);
    }
  }

  /** Distinct buttons of one question carry distinct payloads. */
  lemma EncodeInjective(id: string, i: nat, j: nat)
    requires Encode(id, i) == Encode(id, j)
    ensures i == j
  {
    assert Encode(id, i)[|id| + 1..] == NatToString(i);
    assert Encode(id, j)[|id| + 1..] == NatToString(j);
    DigitsRoundTrip(i);
    DigitsRoundTrip(j);
  }
}
