/** The two C library routines the graph loader relies on, as used on one
    line of input: `strtok` with a one-character delimiter, and `atoi`.
    Characters are those of the "C" locale. */
module CString {

  datatype Option<T> = None | Some(value: T)

  /** `isspace` in the "C" locale. */
  predicate IsSpace(c: char) {
    c == ' ' || c == '\t' || c == '\n' || c == '\U{000B}' || c == '\U{000C}' || c == '\r'
  }

  predicate IsDigit(c: char) {
    '0' <= c <= '9'
  }

  predicate AllDigits(s: string) {
    forall i | 0 <= i < |s| :: IsDigit(s[i])
  }

  // ---------------------------------------------------------------------
  // strtok
  // ---------------------------------------------------------------------

  /** Length of the longest prefix of `s` that does not contain `d`. */
  function TokenLength(s: string, d: char): (k: nat)
    ensures k <= |s|
  {
    if s == [] || s[0] == d then 0 else 1 + TokenLength(s[1..], d)
  }

  /** The prefix TokenLength measures is free of `d` and as long as can be. */
  lemma {:induction false} TokenLengthIsMaximal(s: string, d: char)
    ensures forall i | 0 <= i < TokenLength(s, d) :: s[i] != d
    ensures TokenLength(s, d) < |s| ==> s[TokenLength(s, d)] == d
  {
    if s != [] && s[0] != d {
      TokenLengthIsMaximal(s[1..], d);
      assert forall i | 1 <= i < TokenLength(s, d) :: s[i] == s[1..][i - 1];
    }
  }

  /** One call of `strtok` with delimiter `d` on the text `s` that remains to
      be scanned: leading delimiters are skipped, the token runs up to the
      next delimiter (which is consumed) or to the end of the text. The
      result is the token and what the next call will scan; `None` is
      strtok's NULL, returned when only delimiters remain. */
  function NextToken(s: string, d: char): (r: Option<(string, string)>)
    ensures r.Some? ==> |r.value.1| < |s|
    decreases |s|
  {
    if s == [] then None
    else if s[0] == d then NextToken(s[1..], d)
    else
      var k := TokenLength(s, d);
      Some((s[..k], if k == |s| then [] else s[k + 1..]))
  }

  /** strtok returns NULL exactly when only delimiters remain; a token it
      returns is never empty and holds no delimiter. */
  lemma {:induction false} NextTokenShape(s: string, d: char)
    ensures NextToken(s, d).None? <==> forall i | 0 <= i < |s| :: s[i] == d
    ensures NextToken(s, d).Some? ==> NextToken(s, d).value.0 != [] && d !in NextToken(s, d).value.0
    decreases |s|
  {
    if s != [] && s[0] == d {
      NextTokenShape(s[1..], d);
      assert forall i | 1 <= i < |s| :: s[i] == s[1..][i - 1];
    } else if s != [] {
      TokenLengthIsMaximal(s, d);
    }
  }

  /** A token that runs to the end of the text. */
  lemma TokenAtEnd(x: string, d: char)
    requires x != [] && d !in x
    ensures NextToken(x, d) == Some((x, []))
  {
    TokenLengthIsMaximal(x, d);
    assert forall i | 0 <= i < |x| :: x[i] != d;
    assert TokenLength(x, d) == |x|;
    assert x[..|x|] == x;
  }

  /** A token ended by a delimiter. */
  lemma TokenBeforeDelimiter(x: string, y: string, d: char)
    requires x != [] && d !in x
    ensures NextToken(x + [d] + y, d) == Some((x, y))
  {
    var s := x + [d] + y;
    TokenLengthIsMaximal(s, d);
    assert s[|x|] == d;
    assert forall i | 0 <= i < |x| :: s[i] == x[i] && x[i] != d;
    assert TokenLength(s, d) == |x|;
    assert s[..|x|] == x && s[|x| + 1..] == y;
  }

  /** Every text with a token splits as delimiters `p`, the token `x`, and
      either nothing or one delimiter and the remainder `y`; together with
      NextTokenShape this determines strtok's answer. */
  lemma {:induction false} NextTokenOf(p: string, x: string, y: string, d: char)
    requires forall i | 0 <= i < |p| :: p[i] == d
    requires x != [] && d !in x
    ensures NextToken(p + x, d) == Some((x, []))
    ensures NextToken(p + x + [d] + y, d) == Some((x, y))
    decreases |p|
  {
    if p == [] {
      assert p + x == x;
      assert p + x + [d] + y == x + [d] + y;
      TokenAtEnd(x, d);
      TokenBeforeDelimiter(x, y, d);
    } else {
      assert (p + x)[1..] == p[1..] + x;
      assert (p + x + [d] + y)[1..] == p[1..] + x + [d] + y;
      NextTokenOf(p[1..], x, y, d);
    }
  }

  // ---------------------------------------------------------------------
  // atoi
  // ---------------------------------------------------------------------

  /** `s` with its leading white space removed, as atoi skips it. */
  function SkipSpace(s: string): string {
    if s != [] && IsSpace(s[0]) then SkipSpace(s[1..]) else s
  }

  /** SkipSpace drops a run of white space from the front, and no more. */
  lemma {:induction false} SkipSpaceIsSuffix(s: string)
    ensures |SkipSpace(s)| <= |s| && SkipSpace(s) == s[|s| - |SkipSpace(s)|..]
    ensures SkipSpace(s) == [] || !IsSpace(SkipSpace(s)[0])
    ensures forall i | 0 <= i < |s| - |SkipSpace(s)| :: IsSpace(s[i])
  {
    if s != [] && IsSpace(s[0]) {
      SkipSpaceIsSuffix(s[1..]);
      assert forall i | 1 <= i < |s| :: s[i] == s[1..][i - 1];
    }
  }

  /** The longest prefix of `s` made of decimal digits. */
  function DigitRun(s: string): string {
    if s != [] && IsDigit(s[0]) then [s[0]] + DigitRun(s[1..]) else []
  }

  /** DigitRun is a prefix of digits that stops at the first non-digit. */
  lemma {:induction false} DigitRunIsMaximal(s: string)
    ensures |DigitRun(s)| <= |s| && DigitRun(s) == s[..|DigitRun(s)|]
    ensures AllDigits(DigitRun(s))
    ensures |DigitRun(s)| < |s| ==> !IsDigit(s[|DigitRun(s)|])
  {
    if s != [] && IsDigit(s[0]) {
      DigitRunIsMaximal(s[1..]);
    }
  }

  /** The number that a string of decimal digits denotes. */
  function DigitsValue(ds: string): int {
    if ds == [] then 0
    else 10 * DigitsValue(ds[..|ds| - 1]) + (ds[|ds| - 1] as int - '0' as int)
  }

  /** A run of digits never denotes a negative number. */
  lemma {:induction false} DigitsValueNonNegative(ds: string)
    requires AllDigits(ds)
    ensures DigitsValue(ds) >= 0
    decreases |ds|
  {
    if ds != [] {
      DigitsValueNonNegative(ds[..|ds| - 1]);
    }
  }

  /** The digits atoi reads from the front of `s` denote a natural number. */
  lemma DigitRunNonNegative(s: string)
    ensures DigitsValue(DigitRun(s)) >= 0
  {
    DigitRunIsMaximal(s);
    DigitsValueNonNegative(DigitRun(s));
  }

  /** C `atoi`: white space, an optional sign, then the longest run of digits;
      anything that does not start a number yields 0. The result is negative
      only when a minus sign follows the white space. */
  function Atoi(s: string): (r: int)
    ensures r < 0 ==> SkipSpace(s) != [] && SkipSpace(s)[0] == '-'
  {
    var t := SkipSpace(s);
    if t != [] && (t[0] == '-' || t[0] == '+') then
      DigitRunNonNegative(t[1..]);
      var m := DigitsValue(DigitRun(t[1..]));
      if t[0] == '-' then -m else m
    else
      DigitRunNonNegative(t);
      DigitsValue(DigitRun(t))
  }

  /** Whether a number starts `s`: after the white space, a digit, or a sign
      followed by a digit. */
  predicate StartsNumber(s: string) {
    var t := SkipSpace(s);
    t != [] && (IsDigit(t[0]) || ((t[0] == '-' || t[0] == '+') && |t| > 1 && IsDigit(t[1])))
  }

  /** Text in which no number starts ("", "\n", "a2", "x-1", "+ 3") is read
      by atoi as 0. */
  lemma AtoiNoNumber(s: string)
    requires !StartsNumber(s)
    ensures Atoi(s) == 0
  {
  }

  /** The decimal numeral of `k`, as the input format writes vertex numbers. */
  function Decimal(k: nat): string {
    if k < 10 then [('0' as int + k) as char]
    else Decimal(k / 10) + [('0' as int + k % 10) as char]
  }

  /** A numeral is a non-empty string of digits. */
  lemma {:induction false} DecimalIsNumeral(k: nat)
    ensures Decimal(k) != [] && AllDigits(Decimal(k))
  {
    if k >= 10 {
      DecimalIsNumeral(k / 10);
    }
  }

  lemma {:induction false} DecimalValue(k: nat)
    ensures DigitsValue(Decimal(k)) == k
  {
    if k >= 10 {
      var r := Decimal(k);
      assert r[..|r| - 1] == Decimal(k / 10);
      DecimalValue(k / 10);
    }
  }

  lemma {:induction false} DigitRunOf(x: string, rest: string)
    requires AllDigits(x)
    requires rest == [] || !IsDigit(rest[0])
    ensures DigitRun(x + rest) == x
  {
    if x != [] {
      assert (x + rest)[1..] == x[1..] + rest;
      DigitRunOf(x[1..], rest);
      assert [x[0]] + x[1..] == x;
    } else {
      assert x + rest == rest;
    }
  }

  lemma {:induction false} SkipSpaceOf(ws: string, y: string)
    requires forall i | 0 <= i < |ws| :: IsSpace(ws[i])
    requires y == [] || !IsSpace(y[0])
    ensures SkipSpace(ws + y) == y
  {
    if ws == [] {
      assert ws + y == y;
    } else {
      assert (ws + y)[1..] == ws[1..] + y;
      SkipSpaceOf(ws[1..], y);
    }
  }

  /** atoi reads a sign ("", "+" or "-") and a run of digits, whatever white
      space precedes them and whatever non-digit text follows: leading zeros
      and a '+' change nothing, a '-' negates. */
  lemma AtoiSigned(ws: string, sign: string, ds: string, rest: string)
    requires forall i | 0 <= i < |ws| :: IsSpace(ws[i])
    requires sign == [] || sign == ['+'] || sign == ['-']
    requires ds != [] && AllDigits(ds)
    requires rest == [] || !IsDigit(rest[0])
    ensures Atoi(ws + (sign + ds + rest)) == if sign == ['-'] then -DigitsValue(ds) else DigitsValue(ds)
  {
    var y := sign + ds + rest;
    assert y[0] == if sign == [] then ds[0] else sign[0];
    SkipSpaceOf(ws, y);
    if sign != [] {
      assert y[1..] == ds + rest;
    } else {
      assert y == ds + rest;
    }
    DigitRunOf(ds, rest);
  }

  /** A leading zero does not change the value of a run of digits. */
  lemma {:induction false} LeadingZero(ds: string)
    ensures DigitsValue(['0'] + ds) == DigitsValue(ds)
    decreases |ds|
  {
    if ds != [] {
      assert (['0'] + ds)[..|ds|] == ['0'] + ds[..|ds| - 1];
      LeadingZero(ds[..|ds| - 1]);
    }
  }

  /** atoi reads back the numeral of any natural number, whatever white space
      precedes it and whatever non-digit text (such as a newline) follows. */
  lemma AtoiDecimal(ws: string, k: nat, rest: string)
    requires forall i | 0 <= i < |ws| :: IsSpace(ws[i])
    requires rest == [] || !IsDigit(rest[0])
    ensures Atoi(ws + (Decimal(k) + rest)) == k
  {
    DecimalIsNumeral(k);
    AtoiSigned(ws, [], Decimal(k), rest);
    assert [] + Decimal(k) + rest == Decimal(k) + rest;
    DecimalValue(k);
  }

  /** With a minus sign in front of the numeral, atoi reads the negation. */
  lemma AtoiNegativeDecimal(ws: string, k: nat, rest: string)
    requires forall i | 0 <= i < |ws| :: IsSpace(ws[i])
    requires rest == [] || !IsDigit(rest[0])
    ensures Atoi(ws + (['-'] + Decimal(k) + rest)) == -(k as int)
  {
    DecimalIsNumeral(k);
    AtoiSigned(ws, ['-'], Decimal(k), rest);
    DecimalValue(k);
  }
}
