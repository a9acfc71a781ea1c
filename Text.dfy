/**
 * Text primitives behind the saved map: the decimal form in which a C++
 * output stream writes an `int`, and splitting text at a separator
 * character, which is what reading the saved literal back needs.
 */
module Text {
  import opened Options

  /** The character of a decimal digit. */
  function DigitChar(d: int): (c: char)
    requires 0 <= d < 10
    ensures '0' <= c <= '9'
    ensures c as int - '0' as int == d
  {
    ('0' as int + d) as char
  }

  predicate IsDigits(s: string)
  {
    forall k :: 0 <= k < |s| ==> '0' <= s[k] <= '9'
  }

  /** Decimal digits of a natural number, most significant first, with no leading zero. */
  function NatText(n: nat): (s: string)
    ensures |s| > 0 && IsDigits(s)
    ensures |s| > 1 ==> s[0] != '0'
    decreases n
  {
    if n < 10 then [DigitChar(n)] else NatText(n / 10) + [DigitChar(n % 10)]
  }

  /** What `stream << v` writes for an `int` v: a minus sign for a negative value, then its digits. */
  function IntText(v: int): (s: string)
    ensures |s| > 0
    ensures ',' !in s && '\n' !in s
  {
    if v < 0 then "-" + NatText(-v) else NatText(v)
  }

  /** The value of a string of decimal digits (the empty string reads as 0). */
  function DigitsValue(s: string): nat
    requires IsDigits(s)
  {
    if |s| == 0 then 0 else 10 * DigitsValue(s[..|s| - 1]) + (s[|s| - 1] as int - '0' as int)
  }

  /** Reads an optional minus sign followed by at least one decimal digit; anything else is rejected. */
  function ParseInt(s: string): Option<int>
  {
    if |s| > 0 && s[0] == '-' then
      if |s| > 1 && IsDigits(s[1..]) then Some(0 - DigitsValue(s[1..]) as int) else None
    else if |s| > 0 && IsDigits(s) then Some(DigitsValue(s))
    else None
  }

  /** Reading digits back gives the number that was written. */
  lemma {:induction false} NatTextRoundTrip(n: nat)
    ensures DigitsValue(NatText(n)) == n
    decreases n
  {
    if n >= 10 {
      var s := NatText(n);
      NatTextRoundTrip(n / 10);
      assert s[..|s| - 1] == NatText(n / 10);
    }
  }

  /** A minus sign followed by the digits of a positive number reads as its negation. */
  lemma NegativeTextRoundTrip(n: nat)
    ensures ParseInt("-" + NatText(n)) == Some(0 - n)
  {
    var d := NatText(n);
    var s := "-" + d;
    assert s[0] == '-' && s[1..] == d;
    NatTextRoundTrip(n);
  }

  /** The digits of a natural number read as that number. */
  lemma NaturalTextRoundTrip(n: nat)
    ensures ParseInt(NatText(n)) == Some(n)
  {
    var s := NatText(n);
    assert '0' <= s[0] <= '9';
    NatTextRoundTrip(n);
  }

  /** Parsing the text of any `int` gives that `int` back. */
  lemma IntTextRoundTrip(v: int)
    ensures ParseInt(IntText(v)) == Some(v)
  {
    if v < 0 {
      NegativeTextRoundTrip(-v);
    } else {
      NaturalTextRoundTrip(v);
    }
  }

  /** Position of the last occurrence of `c` in `s`, or -1 when `c` does not occur. */
  function LastIndexOf(s: string, c: char): (r: int)
    ensures -1 <= r < |s|
    ensures r >= 0 ==> s[r] == c
    ensures forall k :: r < k < |s| ==> s[k] != c
  {
    if |s| == 0 then -1
    else if s[|s| - 1] == c then |s| - 1
    else LastIndexOf(s[..|s| - 1], c)
  }

  /** The pieces of `s` between occurrences of `sep`; text without `sep` is one piece. */
  function Split(s: string, sep: char): (parts: seq<string>)
    ensures |parts| >= 1
    decreases |s|
  {
    var i := LastIndexOf(s, sep);
    if i < 0 then [s] else Split(s[..i], sep) + [s[i + 1..]]
  }

  /** The pieces joined with `sep` between consecutive pieces and none after the last. */
  function JoinSep(parts: seq<string>, sep: char): string
  {
    if |parts| == 0 then ""
    else if |parts| == 1 then parts[0]
    else JoinSep(parts[..|parts| - 1], sep) + [sep] + parts[|parts| - 1]
  }

  /** Appending one piece adds a separator and that piece. */
  lemma JoinSepSnoc(parts: seq<string>, last: string, sep: char)
    requires |parts| >= 1
    ensures JoinSep(parts + [last], sep) == JoinSep(parts, sep) + [sep] + last
  {
  }

  /** Joining never introduces a character that is neither a separator nor in some piece. */
  lemma {:induction false} JoinSepAvoids(parts: seq<string>, sep: char, c: char)
    requires c != sep
    requires forall i :: 0 <= i < |parts| ==> c !in parts[i]
    ensures c !in JoinSep(parts, sep)
  {
    if |parts| > 1 {
      JoinSepAvoids(parts[..|parts| - 1], sep, c);
    }
  }

  /** The last separator of `j + [sep] + last` is the one after `j` when `last` has none. */
  lemma {:induction false} LastIndexOfAfter(j: string, last: string, sep: char)
    requires sep !in last
    ensures LastIndexOf(j + [sep] + last, sep) == |j|
    decreases |last|
  {
    var s := j + [sep] + last;
    if |last| > 0 {
      assert s[|s| - 1] == last[|last| - 1];
      assert s[..|s| - 1] == j + [sep] + last[..|last| - 1];
      LastIndexOfAfter(j, last[..|last| - 1], sep);
    }
  }

  /** Splitting joined pieces that do not contain the separator recovers the pieces. */
  lemma {:induction false} SplitJoinSep(parts: seq<string>, sep: char)
    requires |parts| >= 1
    requires forall i :: 0 <= i < |parts| ==> sep !in parts[i]
    ensures Split(JoinSep(parts, sep), sep) == parts
  {
    var s := JoinSep(parts, sep);
    if |parts| == 1 {
      assert forall k :: 0 <= k < |s| ==> s[k] != sep;
    } else {
      var init, last := parts[..|parts| - 1], parts[|parts| - 1];
      var j := JoinSep(init, sep);
      assert s == j + [sep] + last;
      LastIndexOfAfter(j, last, sep);
      assert s[..|j|] == j;
      assert s[|j| + 1..] == last;
      SplitJoinSep(init, sep);
      assert init + [last] == parts;
    }
  }

  /** How many times `c` occurs in `s`. */
  function Occurrences(s: string, c: char): nat
  {
    if |s| == 0 then 0 else Occurrences(s[..|s| - 1], c) + (if s[|s| - 1] == c then 1 else 0)
  }

  /** The occurrences in a concatenation are those of its two parts. */
  lemma {:induction false} OccurrencesAppend(a: string, b: string, c: char)
    ensures Occurrences(a + b, c) == Occurrences(a, c) + Occurrences(b, c)
    decreases |b|
  {
    if |b| == 0 {
      assert a + b == a;
    } else {
      assert (a + b)[..|a + b| - 1] == a + b[..|b| - 1];
      assert (a + b)[|a + b| - 1] == b[|b| - 1];
      OccurrencesAppend(a, b[..|b| - 1], c);
    }
  }

  /** A character that is not in `s` occurs in it zero times. */
  lemma {:induction false} OccurrencesAbsent(s: string, c: char)
    requires c !in s
    ensures Occurrences(s, c) == 0
    decreases |s|
  {
    if |s| > 0 {
      OccurrencesAbsent(s[..|s| - 1], c);
    }
  }
}
