/**
 * Character and string helpers that the .NET runtime supplies to the
 * program: case mapping (`String.ToLower`, `String.ToUpper`), the decimal
 * form of an integer (string interpolation of an `int`), and a character
 * search that the reference decoder of destination names uses.
 */
module Text {

  datatype Option<+T> = None | Some(value: T)

  /** The value held by `o`, or `default` when there is none. */
  function ValueOr<T>(o: Option<T>, default: T): T
  {
    match o
    case Some(v) => v
    case None => default
  }

  // ---------------------------------------------------------------------
  // Case mapping (ASCII letters; every other character maps to itself)
  // ---------------------------------------------------------------------

  predicate IsUpperLetter(c: char) { 'A' <= c <= 'Z' }

  predicate IsLowerLetter(c: char) { 'a' <= c <= 'z' }

  function LowerChar(c: char): char
  {
    if IsUpperLetter(c) then (c as int + 32) as char else c
  }

  function UpperChar(c: char): char
  {
    if IsLowerLetter(c) then (c as int - 32) as char else c
  }

  /** `String.ToLower`: every character mapped by `LowerChar`. */
  function Lower(s: string): string
  {
    seq(|s|, i requires 0 <= i < |s| => LowerChar(s[i]))
  }

  /** `String.ToUpper`: every character mapped by `UpperChar`. */
  function Upper(s: string): string
  {
    seq(|s|, i requires 0 <= i < |s| => UpperChar(s[i]))
  }

  /**
   * A character lowers to a character `d` that is not itself an upper-case
   * letter exactly when it is `d` or the upper-case form of `d`.
   */
  lemma LowerCharIs(c: char, d: char)
    requires !IsUpperLetter(d)
    ensures LowerChar(c) == d <==> c == d || c == UpperChar(d)
  {
  }

  /**
   * Matching a lower-cased string against a lower-case literal is a
   * case-insensitive comparison: position by position, either spelling of
   * each letter is accepted and nothing else is.
   */
  lemma LowerMatches(s: string, lit: string)
    requires forall i :: 0 <= i < |lit| ==> !IsUpperLetter(lit[i])
    ensures Lower(s) == lit <==>
      |s| == |lit| && forall i :: 0 <= i < |s| ==> s[i] == lit[i] || s[i] == UpperChar(lit[i])
  {
    if |s| == |lit| {
      forall i | 0 <= i < |s|
        ensures Lower(s)[i] == lit[i] <==> s[i] == lit[i] || s[i] == UpperChar(lit[i])
      {
        LowerCharIs(s[i], lit[i]);
      }
      if forall i :: 0 <= i < |s| ==> s[i] == lit[i] || s[i] == UpperChar(lit[i]) {
        assert forall i :: 0 <= i < |s| ==> Lower(s)[i] == lit[i];
      }
    }
  }

  /**
   * `Upper` turns each lower-case letter into the upper-case letter that
   * lowers back to it and keeps every other character: the result holds no
   * lower-case letter, agrees with `s` ignoring case, and `Upper` is idempotent.
   */
  lemma UpperIsUpper(s: string)
    ensures |Upper(s)| == |s|
    ensures forall i :: 0 <= i < |s| ==> !IsLowerLetter(Upper(s)[i])
    ensures forall i :: 0 <= i < |s| && !IsLowerLetter(s[i]) ==> Upper(s)[i] == s[i]
    ensures Lower(Upper(s)) == Lower(s)
    ensures Upper(Upper(s)) == Upper(s)
  {
  }

  /** A task named `sum` becomes `SUM`; digits and punctuation stay. */
  lemma UpperExample()
    ensures Upper("sum_2") == "SUM_2"
  {
    assert Upper("sum_2") == ['S', 'U', 'M', '_', '2'];
  }

  /** Upper-casing never creates nor removes a character that is not a letter. */
  lemma UpperKeepsNonLetter(s: string, c: char)
    requires !IsLowerLetter(c) && !IsUpperLetter(c)
    ensures c in Upper(s) <==> c in s
  {
    if c in s {
      var i :| 0 <= i < |s| && s[i] == c;
      assert Upper(s)[i] == c;
    }
    if c in Upper(s) {
      var i :| 0 <= i < |Upper(s)| && Upper(s)[i] == c;
      assert s[i] == c;
    }
  }

  // ---------------------------------------------------------------------
  // Decimal digits
  // ---------------------------------------------------------------------

  predicate IsDigit(c: char) { '0' <= c <= '9' }

  predicate AllDigits(s: string) { forall i :: 0 <= i < |s| ==> IsDigit(s[i]) }

  function DigitChar(d: nat): char
    requires d < 10
  {
    ('0' as int + d) as char
  }

  function DigitValue(c: char): nat
    requires IsDigit(c)
  {
    c as int - '0' as int
  }

  /**
   * The decimal form of a non-negative integer, as `int.ToString()` writes
   * it: one or more digits, no sign, no leading zero.
   */
  function DecimalString(n: nat): (s: string)
    ensures |s| > 0 && AllDigits(s)
    ensures s[0] == '0' ==> n == 0
    decreases n
  {
    if n < 10 then [DigitChar(n)] else DecimalString(n / 10) + [DigitChar(n % 10)]
  }

  /** The value of a string of decimal digits. */
  function DecimalValue(s: string): nat
    requires AllDigits(s)
  {
    if s == [] then 0 else DecimalValue(s[..|s| - 1]) * 10 + DigitValue(s[|s| - 1])
  }

  /** Reading back the decimal form of `n` gives `n`. */
  lemma {:induction false} DecimalRoundTrip(n: nat)
    ensures DecimalValue(DecimalString(n)) == n
    decreases n
  {
    var s := DecimalString(n);
    if n >= 10 {
      DecimalRoundTrip(n / 10);
      assert s[..|s| - 1] == DecimalString(n / 10);
    }
  }

  /** The length of the longest prefix of `s` made of decimal digits. */
  function DigitRun(s: string): (k: nat)
    ensures k <= |s| && AllDigits(s[..k])
    ensures k < |s| ==> !IsDigit(s[k])
  {
    if s == [] || !IsDigit(s[0]) then 0 else 1 + DigitRun(s[1..])
  }

  /** The digit run of a digit string followed by a non-digit is that digit string. */
  lemma {:induction false} DigitRunOfDigits(d: string, rest: string)
    requires AllDigits(d)
    requires rest != [] && !IsDigit(rest[0])
    ensures DigitRun(d + rest) == |d|
  {
    assert (d + rest)[..|d|] == d;
    assert (d + rest)[|d|] == rest[0];
  }

  // ---------------------------------------------------------------------
  // Searching
  // ---------------------------------------------------------------------

  /** `String.IndexOf(char)`: the first position of `c` in `s`, if any. */
  function IndexOf(s: string, c: char): (r: Option<nat>)
    ensures r.None? <==> c !in s
    ensures r.Some? ==> r.value < |s| && s[r.value] == c && c !in s[..r.value]
  {
    if s == [] then None
    else if s[0] == c then Some(0)
    else match IndexOf(s[1..], c)
      case None => None
      case Some(i) =>
        assert s[1..][..i] == s[1..i + 1];
        Some(i + 1)
  }

  /** The first `c` of `a + [c] + b` is the one after `a`, when `a` has none. */
  lemma IndexOfAfter(a: string, c: char, b: string)
    requires c !in a
    ensures IndexOf(a + [c] + b, c) == Some(|a|)
  {
    var s := a + [c] + b;
    assert s[..|a|] == a;
    assert s[|a|] == c;
  }
}
