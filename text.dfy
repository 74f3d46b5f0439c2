/**
 * Character classes and the two string transformations the rule table applies
 * before matching: `String.prototype.trim` and `replace(/\D/g, '')`.
 */
module Text {

  /** The white-space set of ECMAScript (WhiteSpace plus LineTerminator): the
      characters matched by the regular-expression class `\s` and removed by `trim()`:
      tab, line feed, vertical tab, form feed, carriage return, space, no-break space,
      the other space separators of Unicode, the line and paragraph separators and the
      byte-order mark. */
  predicate IsSpace(c: char) {
    var n := c as int;
    || (9 <= n <= 13) || n == 0x20 || n == 0xA0 || n == 0x1680 || (0x2000 <= n <= 0x200A)
    || n == 0x2028 || n == 0x2029 || n == 0x202F || n == 0x205F || n == 0x3000 || n == 0xFEFF
  }

  /** The class `[a-zA-Z]`. */
  predicate IsAsciiLetter(c: char) {
    ('a' <= c <= 'z') || ('A' <= c <= 'Z')
  }

  /** The class `[0-9]`, which is also what `\d` means in JavaScript. */
  predicate IsAsciiDigit(c: char) {
    '0' <= c <= '9'
  }

  /** Every character of `s` is an ASCII digit. */
  predicate AllDigits(s: string) {
    forall i :: 0 <= i < |s| ==> IsAsciiDigit(s[i])
  }

  predicate AllSpace(s: string) {
    forall i :: 0 <= i < |s| ==> IsSpace(s[i])
  }

  /** How many white-space characters `s` starts with. */
  function LeadingSpace(s: string): (n: nat)
    ensures n <= |s|
    ensures forall i :: 0 <= i < n ==> IsSpace(s[i])
    ensures n < |s| ==> !IsSpace(s[n])
  {
    if |s| > 0 && IsSpace(s[0]) then
      var n := 1 + LeadingSpace(s[1..]);
      assert forall i :: 1 <= i < |s| ==> s[1..][i - 1] == s[i];
      n
    else 0
  }

  /** How many white-space characters `s` ends with. */
  function TrailingSpace(s: string): (n: nat)
    ensures n <= |s|
    ensures forall i :: |s| - n <= i < |s| ==> IsSpace(s[i])
    ensures n < |s| ==> !IsSpace(s[|s| - n - 1])
  {
    if |s| > 0 && IsSpace(s[|s| - 1]) then
      var n := 1 + TrailingSpace(s[..|s| - 1]);
      assert forall i :: 0 <= i < |s| - 1 ==> s[..|s| - 1][i] == s[i];
      n
    else 0
  }

  /** `s.trim()`: `s` without its leading and trailing white space
      (TrimIsSlice spells out which slice). */
  function Trim(s: string): (r: string)
    ensures r == [] <==> AllSpace(s)
    ensures r != [] ==> !IsSpace(r[0]) && !IsSpace(r[|r| - 1])
  {
    var a := LeadingSpace(s);
    if a == |s| then []
    else
      var b := TrailingSpace(s);
      assert a < |s| - b;
      s[a..|s| - b]
  }

  /** The trimmed string is a slice of the input with only white space around it. */
  lemma {:induction false} TrimIsSlice(s: string)
    ensures exists lo :: 0 <= lo <= |s| - |Trim(s)| && Trim(s) == s[lo..lo + |Trim(s)|]
                         && AllSpace(s[..lo]) && AllSpace(s[lo + |Trim(s)|..])
  {
    var lo := LeadingSpace(s);
    var t := Trim(s);
    assert t == s[lo..lo + |t|];
    assert AllSpace(s[..lo]);
    if lo < |s| {
      assert |s| - TrailingSpace(s) == lo + |t|;
    }
    assert AllSpace(s[lo + |t|..]);
  }

  /** A string that neither starts nor ends with white space is its own trim. */
  lemma {:induction false} TrimOfTrimmed(s: string)
    requires s == [] || (!IsSpace(s[0]) && !IsSpace(s[|s| - 1]))
    ensures Trim(s) == s
  {
    if s != [] {
      assert LeadingSpace(s) == 0;
      assert TrailingSpace(s) == 0;
    }
  }

  /** Trimming twice is trimming once. */
  lemma {:induction false} TrimIdempotent(s: string)
    ensures Trim(Trim(s)) == Trim(s)
  {
    TrimOfTrimmed(Trim(s));
  }

  /** `s.replace(/\D/g, '')`: the ASCII digits of `s`, in order. The result holds
      only digits, and holds every digit of `s` as often as `s` does. */
  function Digits(s: string): (r: string)
    ensures AllDigits(r)
    ensures forall c {:trigger multiset(r)[c]} :: multiset(r)[c] == if IsAsciiDigit(c) then multiset(s)[c] else 0
  {
    if s == [] then []
    else
      assert s == [s[0]] + s[1..];
      (if IsAsciiDigit(s[0]) then [s[0]] else []) + Digits(s[1..])
  }

  /** A string of digits is its own digit string. */
  lemma {:induction false} DigitsOfDigitString(s: string)
    requires AllDigits(s)
    ensures Digits(s) == s
  {
    if s != [] {
      var t := s[1..];
      assert AllDigits(t) by {
        forall i | 0 <= i < |t| ensures IsAsciiDigit(t[i]) { assert t[i] == s[i + 1]; }
      }
      DigitsOfDigitString(t);
    }
  }

  /** Stripping non-digits distributes over concatenation. */
  lemma {:induction false} DigitsAppend(a: string, b: string)
    ensures Digits(a + b) == Digits(a) + Digits(b)
  {
    if a == [] {
      assert a + b == b;
    } else {
      assert (a + b)[0] == a[0];
      assert (a + b)[1..] == a[1..] + b;
      DigitsAppend(a[1..], b);
    }
  }

  /** Inserting (or, read right to left, removing) a non-digit character anywhere
      leaves the stripped digits unchanged. */
  lemma {:induction false} DigitsIgnoreNonDigit(a: string, c: char, b: string)
    requires !IsAsciiDigit(c)
    ensures Digits(a + [c] + b) == Digits(a + b)
  {
    DigitsAppend(a + [c], b);
    DigitsAppend(a, [c]);
    DigitsAppend(a, b);
    assert Digits([c]) == [] + Digits([]);
  }

  /** The number of ASCII digits in `s`, counted by code point. */
  function DigitCount(s: string): nat {
    multiset(s)['0'] + multiset(s)['1'] + multiset(s)['2'] + multiset(s)['3'] + multiset(s)['4']
    + multiset(s)['5'] + multiset(s)['6'] + multiset(s)['7'] + multiset(s)['8'] + multiset(s)['9']
  }

  /** A string of digits only is counted entirely by its ten digit multiplicities. */
  lemma {:induction false} DigitStringSize(t: string)
    requires AllDigits(t)
    ensures |t| == DigitCount(t)
  {
    if t != [] {
      var u := t[1..];
      assert t == [t[0]] + u;
      DigitCountAppend([t[0]], u);
      SingleDigitCount(t[0]);
      DigitStringSize(u);
    }
  }

  lemma {:induction false} DigitCountAppend(a: string, b: string)
    ensures DigitCount(a + b) == DigitCount(a) + DigitCount(b)
  {
    assert multiset(a + b) == multiset(a) + multiset(b);
  }

  lemma {:induction false} SingleDigitCount(c: char)
    requires IsAsciiDigit(c)
    ensures DigitCount([c]) == 1
  {
    assert multiset([c]) == multiset{c};
  }

  /** The stripped string is exactly as long as the number of digits in the input. */
  lemma {:induction false} DigitsLength(s: string)
    ensures |Digits(s)| == DigitCount(s)
  {
    var r := Digits(s);
    DigitStringSize(r);
    assert multiset(r)['0'] == multiset(s)['0'];
    assert multiset(r)['1'] == multiset(s)['1'];
    assert multiset(r)['2'] == multiset(s)['2'];
    assert multiset(r)['3'] == multiset(s)['3'];
    assert multiset(r)['4'] == multiset(s)['4'];
    assert multiset(r)['5'] == multiset(s)['5'];
    assert multiset(r)['6'] == multiset(s)['6'];
    assert multiset(r)['7'] == multiset(s)['7'];
    assert multiset(r)['8'] == multiset(s)['8'];
    assert multiset(r)['9'] == multiset(s)['9'];
  }

  /** A character that is not white space survives trimming. */
  lemma {:induction false} TrimKeeps(s: string, p: nat)
    requires p < |s| && !IsSpace(s[p])
    ensures exists q :: 0 <= q < |Trim(s)| && Trim(s)[q] == s[p]
  {
    var lo := LeadingSpace(s);
    assert lo <= p < |s| - TrailingSpace(s);
    assert Trim(s)[p - lo] == s[p];
  }
}
