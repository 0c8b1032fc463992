/** String helpers shared by the model: Python 2's `str.rstrip()`, `sep.join`,
    `str.startswith`, Python's string ordering, and decimal digits. */
module Text {

  /** The characters Python 2's `str.rstrip()` removes. */
  predicate IsWhitespace(c: char) {
    c == ' ' || c == '\t' || c == '\n' || c == '\r' || c == '\U{000B}' || c == '\U{000C}'
  }

  /** `s.rstrip()`: `s` without its trailing whitespace. */
  function RStrip(s: string): (r: string)
    ensures r <= s
    ensures r == [] || !IsWhitespace(r[|r| - 1])
    ensures forall k :: |r| <= k < |s| ==> IsWhitespace(s[k])
  {
    if s != [] && IsWhitespace(s[|s| - 1]) then RStrip(s[..|s| - 1]) else s
  }

  /** `s.startswith(prefix)`. */
  predicate StartsWith(s: string, prefix: string) {
    prefix <= s
  }

  /** `sep.join(parts)`. */
  function JoinWith(sep: string, parts: seq<string>): string
    decreases |parts|
  {
    if |parts| == 0 then ""
    else if |parts| == 1 then parts[0]
    else parts[0] + sep + JoinWith(sep, parts[1..])
  }

  /** `''.join(parts + [last])` is `''.join(parts)` followed by `last`. */
  lemma {:induction false} JoinEmptySnoc(parts: seq<string>, last: string)
    ensures JoinWith("", parts + [last]) == JoinWith("", parts) + last
    decreases |parts|
  {
    if |parts| == 0 {
      assert parts + [last] == [last];
    } else if |parts| == 1 {
      assert (parts + [last])[1..] == [last];
    } else {
      assert (parts + [last])[1..] == parts[1..] + [last];
      JoinEmptySnoc(parts[1..], last);
    }
  }

  /** A separator that occurs in no part splits the joined string back into the parts. */
  function SplitOn(sep: char, s: string): (r: seq<string>)
    ensures |r| >= 1
    ensures forall k :: 0 <= k < |r| ==> sep !in r[k]
  {
    if s == [] then [""]
    else if s[0] == sep then [""] + SplitOn(sep, s[1..])
    else var rest := SplitOn(sep, s[1..]); [[s[0]] + rest[0]] + rest[1..]
  }

  lemma SplitOnLeadingSep(sep: char, s: string)
    ensures SplitOn(sep, [sep] + s) == [""] + SplitOn(sep, s)
  {
    assert ([sep] + s)[1..] == s;
  }

  lemma {:induction false} SplitOnAppend(sep: char, x: string, y: string)
    requires sep !in x
    ensures SplitOn(sep, x + [sep] + y) == [x] + SplitOn(sep, y)
    decreases |x|
  {
    if x == [] {
      assert x + [sep] + y == [sep] + y;
    } else {
      var s := x + [sep] + y;
      assert s[0] == x[0] && s[1..] == x[1..] + [sep] + y;
      SplitOnAppend(sep, x[1..], y);
      assert [x[0]] + x[1..] == x;
    }
  }

  lemma {:induction false} SplitOnNoSep(sep: char, x: string)
    requires sep !in x
    ensures SplitOn(sep, x) == [x]
    decreases |x|
  {
    if x != [] {
      SplitOnNoSep(sep, x[1..]);
      assert [x[0]] + x[1..] == x;
    }
  }

  /** Joining parts that do not contain the separator loses nothing:
      splitting the result gives the parts back (for at least one part). */
  lemma {:induction false} SplitJoin(sep: char, parts: seq<string>)
    requires |parts| >= 1
    requires forall k :: 0 <= k < |parts| ==> sep !in parts[k]
    ensures SplitOn(sep, JoinWith([sep], parts)) == parts
    decreases |parts|
  {
    if |parts| == 1 {
      SplitOnNoSep(sep, parts[0]);
    } else {
      SplitJoin(sep, parts[1..]);
      SplitOnAppend(sep, parts[0], JoinWith([sep], parts[1..]));
      assert [parts[0]] + parts[1..] == parts;
    }
  }

  // ---------------------------------------------------------------------------
  // Python's ordering of strings (code point by code point; a proper prefix is smaller)

  predicate LexLess(a: string, b: string)
    decreases |a|
  {
    if a == [] then b != []
    else b != [] && (a[0] < b[0] || (a[0] == b[0] && LexLess(a[1..], b[1..])))
  }

  lemma {:induction false} LexLessIrreflexive(a: string)
    ensures !LexLess(a, a)
    decreases |a|
  {
    if a != [] { LexLessIrreflexive(a[1..]); }
  }

  lemma {:induction false} LexLessTotal(a: string, b: string)
    ensures a == b || LexLess(a, b) || LexLess(b, a)
    decreases |a|
  {
    if a != [] && b != [] && a[0] == b[0] {
      LexLessTotal(a[1..], b[1..]);
      if a[1..] == b[1..] {
        assert a == [a[0]] + a[1..] && b == [b[0]] + b[1..];
      }
    }
  }

  lemma {:induction false} LexLessTransitive(a: string, b: string, c: string)
    requires LexLess(a, b) && LexLess(b, c)
    ensures LexLess(a, c)
    decreases |a|
  {
    if a != [] && a[0] == b[0] && b[0] == c[0] {
      LexLessTransitive(a[1..], b[1..], c[1..]);
    }
  }

  /** `sorted(xs)[-1]`: an element of `xs` that no element of `xs` exceeds. */
  function MaxLex(xs: seq<string>): (m: string)
    requires |xs| > 0
    ensures m in xs
    ensures forall x :: x in xs ==> !LexLess(m, x)
    decreases |xs|
  {
    if |xs| == 1 then
      LexLessIrreflexive(xs[0]);
      xs[0]
    else
      var rest := MaxLex(xs[1..]);
      LexLessTotal(rest, xs[0]);
      if LexLess(rest, xs[0]) then
        LexLessIrreflexive(xs[0]);
        assert forall x :: x in xs[1..] && LexLess(xs[0], x) ==> LexLess(rest, x) by {
          forall x | x in xs[1..] && LexLess(xs[0], x) ensures LexLess(rest, x) {
            LexLessTransitive(rest, xs[0], x);
          }
        }
        assert forall x :: x in xs ==> x == xs[0] || x in xs[1..];
        xs[0]
      else
        assert forall x :: x in xs ==> x == xs[0] || x in xs[1..];
        rest
  }

  // ---------------------------------------------------------------------------
  // Decimal digits: Python's `int(...)` on a digit string and `'%02d' % n`

  predicate IsDigit(c: char) { '0' <= c <= '9' }

  predicate AllDigits(s: string) { forall k :: 0 <= k < |s| ==> IsDigit(s[k]) }

  function DigitValue(c: char): nat
    requires IsDigit(c)
  {
    c as int - '0' as int
  }

  function DigitChar(d: nat): (c: char)
    requires d < 10
    ensures IsDigit(c) && DigitValue(c) == d
  {
    ('0' as int + d) as char
  }

  function Pow10(n: nat): (p: nat)
    ensures p >= 1
  {
    if n == 0 then 1 else 10 * Pow10(n - 1)
  }

  /** `int(s)` for a string of decimal digits. */
  function DecimalValue(s: string): nat
    requires AllDigits(s)
    decreases |s|
  {
    if s == [] then 0 else 10 * DecimalValue(s[..|s| - 1]) + DigitValue(s[|s| - 1])
  }

  /** The last `width` decimal digits of `n`, with leading zeros (`'%0<width>d'`
      when `n` has at most `width` digits). */
  function ZeroPadded(n: nat, width: nat): (s: string)
    ensures |s| == width && AllDigits(s)
    decreases width
  {
    if width == 0 then "" else ZeroPadded(n / 10, width - 1) + [DigitChar(n % 10)]
  }

  lemma {:induction false} DecimalValueBound(s: string)
    requires AllDigits(s)
    ensures DecimalValue(s) < Pow10(|s|)
    decreases |s|
  {
    if s != [] { DecimalValueBound(s[..|s| - 1]); }
  }

  /** Reading back a zero-padded number gives the number. */
  lemma {:induction false} DecimalValueOfZeroPadded(n: nat, width: nat)
    requires n < Pow10(width)
    ensures DecimalValue(ZeroPadded(n, width)) == n
    decreases width
  {
    if width > 0 {
      var s := ZeroPadded(n, width);
      assert s[..|s| - 1] == ZeroPadded(n / 10, width - 1);
      DecimalValueOfZeroPadded(n / 10, width - 1);
    }
  }

  /** Padding the value of a digit string to its own width gives the string back. */
  lemma {:induction false} ZeroPaddedOfDecimalValue(s: string)
    requires AllDigits(s)
    ensures ZeroPadded(DecimalValue(s), |s|) == s
    decreases |s|
  {
    if s != [] {
      var init := s[..|s| - 1];
      ZeroPaddedOfDecimalValue(init);
      var v := DecimalValue(s);
      assert v / 10 == DecimalValue(init) && v % 10 == DigitValue(s[|s| - 1]);
      assert s == init + [s[|s| - 1]];
    }
  }
}
