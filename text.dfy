/** The parts of Python's `str` behaviour the bucket relies on: `strip()`, `lower()`,
    `split(sep)` and the base-10 `int()` conversion of a string. */
module Text {
  import opened Common

  /** The characters for which Python's `str.isspace()` holds. */
  predicate IsSpace(c: char) {
    || c == ' '
    || '\t' <= c <= '\r'
    || '\U{1c}' <= c <= '\U{1f}'
    || c == '\U{85}' || c == '\U{a0}' || c == '\U{1680}'
    || '\U{2000}' <= c <= '\U{200a}'
    || c == '\U{2028}' || c == '\U{2029}' || c == '\U{202f}' || c == '\U{205f}' || c == '\U{3000}'
  }

  /** `s.lstrip()`: drops leading whitespace, and only whitespace. */
  function TrimLeft(s: string): (r: string)
    ensures |r| <= |s| && r == s[|s| - |r|..]
    ensures forall i :: 0 <= i < |s| - |r| ==> IsSpace(s[i])
    ensures r == [] || !IsSpace(r[0])
    decreases |s|
  {
    if s != [] && IsSpace(s[0]) then TrimLeft(s[1..]) else s
  }

  /** `s.rstrip()`: drops trailing whitespace, and only whitespace. */
  function TrimRight(s: string): (r: string)
    ensures |r| <= |s| && r == s[..|r|]
    ensures forall i :: |r| <= i < |s| ==> IsSpace(s[i])
    ensures r == [] || !IsSpace(r[|r| - 1])
    decreases |s|
  {
    if s != [] && IsSpace(s[|s| - 1]) then TrimRight(s[..|s| - 1]) else s
  }

  /** No whitespace at either end: what `strip()` leaves. */
  predicate Stripped(s: string) {
    s == [] || (!IsSpace(s[0]) && !IsSpace(s[|s| - 1]))
  }

  /** `s.strip()`: the slice of `s` left once the whitespace at both ends is dropped. */
  function Strip(s: string): (r: string)
    ensures Stripped(r)
    ensures var d := |s| - |TrimLeft(s)|;
      && d + |r| <= |s| && r == s[d..d + |r|]
      && (forall i :: 0 <= i < d ==> IsSpace(s[i]))
      && (forall i :: d + |r| <= i < |s| ==> IsSpace(s[i]))
  {
    TrimRight(TrimLeft(s))
  }

  /** A character that is not whitespace is never stripped away. */
  lemma StripKeeps(s: string, i: nat)
    requires i < |s| && !IsSpace(s[i])
    ensures exists j :: 0 <= j < |Strip(s)| && Strip(s)[j] == s[i]
  {
    var r := Strip(s);
    var d := |s| - |TrimLeft(s)|;
    assert d <= i < d + |r|;
    assert r[i - d] == s[i];
  }

  /** A string with no whitespace at either end is its own strip. */
  lemma StripUnchanged(s: string)
    requires Stripped(s)
    ensures Strip(s) == s
  {
    assert TrimLeft(s) == s;
  }

  predicate AllSpace(s: string) {
    forall i :: 0 <= i < |s| ==> IsSpace(s[i])
  }

  lemma {:induction false} TrimLeftPad(p: string, x: string)
    requires AllSpace(p)
    ensures TrimLeft(p + x) == TrimLeft(x)
    decreases |p|
  {
    if p == [] {
      assert p + x == x;
    } else {
      assert (p + x)[0] == p[0] && (p + x)[1..] == p[1..] + x;
      TrimLeftPad(p[1..], x);
    }
  }

  lemma {:induction false} TrimRightPad(y: string, q: string)
    requires AllSpace(q)
    ensures TrimRight(y + q) == TrimRight(y)
    decreases |q|
  {
    if q == [] {
      assert y + q == y;
    } else {
      assert (y + q)[|y + q| - 1] == q[|q| - 1];
      assert (y + q)[..|y + q| - 1] == y + q[..|q| - 1];
      TrimRightPad(y, q[..|q| - 1]);
    }
  }

  /** Whitespace around a string with no whitespace at its ends is exactly what strip removes. */
  lemma StripUnique(p: string, m: string, q: string)
    requires AllSpace(p) && AllSpace(q) && Stripped(m)
    ensures Strip(p + m + q) == m
  {
    assert p + m + q == p + (m + q);
    TrimLeftPad(p, m + q);
    if m == [] {
      assert m + q == [] + q;
      TrimLeftPad(q, []);
    } else {
      assert TrimLeft(m + q) == m + q;
      TrimRightPad(m, q);
    }
  }

  /** Leading whitespace of `x + y` reaches into `y` only when `x` is all whitespace. */
  lemma {:induction false} TrimLeftAppend(x: string, y: string)
    ensures TrimLeft(x + y) == if TrimLeft(x) == [] then TrimLeft(y) else TrimLeft(x) + y
    decreases |x|
  {
    if x == [] {
      assert x + y == y;
    } else {
      assert (x + y)[0] == x[0] && (x + y)[1..] == x[1..] + y;
      if IsSpace(x[0]) {
        TrimLeftAppend(x[1..], y);
      }
    }
  }

  /** Padding a string with whitespace does not change its strip. */
  lemma StripPadding(before: string, v: string, after: string)
    requires AllSpace(before) && AllSpace(after)
    ensures Strip(before + v + after) == Strip(v)
  {
    assert before + v + after == before + (v + after);
    TrimLeftPad(before, v + after);
    TrimLeftAppend(v, after);
    assert after + [] == after;
    TrimLeftPad(after, []);
    if TrimLeft(v) != [] {
      TrimRightPad(TrimLeft(v), after);
    }
  }

  /** Stripping never introduces a character. */
  lemma StripIsSlice(s: string, c: char)
    requires c !in s
    ensures c !in Strip(s)
  {
    var d := |s| - |TrimLeft(s)|;
    assert Strip(s) == s[d..d + |Strip(s)|];
  }

  lemma StripIdempotent(s: string)
    ensures Strip(Strip(s)) == Strip(s)
  {
  }

  function LowerChar(c: char): char {
    if 'A' <= c <= 'Z' then (c as int + 32) as char else c
  }

  /** `s.lower()` on the ASCII letters; every other character is kept. */
  function Lower(s: string): (r: string)
    ensures |r| == |s| && forall i :: 0 <= i < |s| ==> r[i] == LowerChar(s[i])
    ensures forall i :: 0 <= i < |r| ==> !('A' <= r[i] <= 'Z')
  {
    seq(|s|, i requires 0 <= i < |s| => LowerChar(s[i]))
  }

  lemma LowerKeepsSpace(c: char)
    ensures IsSpace(LowerChar(c)) == IsSpace(c)
  {
  }

  lemma {:induction false} TrimLeftLower(s: string)
    ensures TrimLeft(Lower(s)) == Lower(TrimLeft(s))
    decreases |s|
  {
    if s != [] {
      LowerKeepsSpace(s[0]);
      assert Lower(s)[0] == LowerChar(s[0]);
      assert Lower(s)[1..] == Lower(s[1..]);
      TrimLeftLower(s[1..]);
    }
  }

  lemma {:induction false} TrimRightLower(s: string)
    ensures TrimRight(Lower(s)) == Lower(TrimRight(s))
    decreases |s|
  {
    if s != [] {
      LowerKeepsSpace(s[|s| - 1]);
      assert Lower(s)[|s| - 1] == LowerChar(s[|s| - 1]);
      assert Lower(s)[..|s| - 1] == Lower(s[..|s| - 1]);
      TrimRightLower(s[..|s| - 1]);
    }
  }

  /** Lower-casing and stripping commute, since lower-casing keeps whitespace whitespace. */
  lemma StripLower(s: string)
    ensures Strip(Lower(s)) == Lower(Strip(s))
  {
    TrimLeftLower(s);
    TrimRightLower(TrimLeft(s));
  }

  lemma LowerIdempotent(s: string)
    ensures Lower(Lower(s)) == Lower(s)
  {
  }

  /** `s.split(sep)`: the pieces between the separators, empty pieces included;
      a string without the separator is one piece. */
  function Split(s: string, sep: char): (r: seq<string>)
    ensures |r| >= 1
    ensures forall i :: 0 <= i < |r| ==> sep !in r[i]
    decreases |s|
  {
    if s == [] then [""]
    else
      var rest := Split(s[1..], sep);
      if s[0] == sep then [""] + rest
      else [[s[0]] + rest[0]] + rest[1..]
  }

  /** `sep.join(parts)`. */
  function Join(parts: seq<string>, sep: char): string
    requires |parts| >= 1
    decreases |parts|
  {
    if |parts| == 1 then parts[0] else parts[0] + [sep] + Join(parts[1..], sep)
  }

  /** Joining the pieces of a split gives the original string back. */
  lemma {:induction false} JoinSplit(s: string, sep: char)
    ensures Join(Split(s, sep), sep) == s
    decreases |s|
  {
    if s != [] {
      var rest := Split(s[1..], sep);
      JoinSplit(s[1..], sep);
      if s[0] != sep {
        var parts := [[s[0]] + rest[0]] + rest[1..];
        if |rest| > 1 {
          assert parts[1..] == rest[1..];
        }
      }
    }
  }

  lemma {:induction false} SplitWithoutSep(s: string, sep: char)
    requires sep !in s
    ensures Split(s, sep) == [s]
    decreases |s|
  {
    if s != [] {
      SplitWithoutSep(s[1..], sep);
      assert [s[0]] + s[1..] == s;
    }
  }

  lemma {:induction false} SplitAfterPiece(a: string, b: string, sep: char)
    requires sep !in a
    ensures Split(a + [sep] + b, sep) == [a] + Split(b, sep)
    decreases |a|
  {
    var s := a + [sep] + b;
    if a == [] {
      assert s[1..] == b;
    } else {
      assert s[1..] == a[1..] + [sep] + b;
      SplitAfterPiece(a[1..], b, sep);
      assert [a[0]] + a[1..] == a;
    }
  }

  /** Splitting at a separator splits the two sides independently. */
  lemma {:induction false} SplitConcat(a: string, b: string, sep: char)
    ensures Split(a + [sep] + b, sep) == Split(a, sep) + Split(b, sep)
    decreases |a|
  {
    var s := a + [sep] + b;
    if a == [] {
      assert s[1..] == b;
    } else {
      assert s[1..] == a[1..] + [sep] + b;
      SplitConcat(a[1..], b, sep);
    }
  }

  /** Splitting a join of separator-free pieces gives the pieces back. */
  lemma {:induction false} SplitJoin(parts: seq<string>, sep: char)
    requires |parts| >= 1
    requires forall i :: 0 <= i < |parts| ==> sep !in parts[i]
    ensures Split(Join(parts, sep), sep) == parts
    decreases |parts|
  {
    if |parts| == 1 {
      SplitWithoutSep(parts[0], sep);
    } else {
      SplitJoin(parts[1..], sep);
      SplitAfterPiece(parts[0], Join(parts[1..], sep), sep);
    }
  }

  predicate IsDigit(c: char) { '0' <= c <= '9' }

  /** The digits of a base-10 literal as `int()` takes them: decimal digits, where a single
      underscore may stand between two digits. */
  predicate IsDigitRun(t: string) {
    && t != []
    && IsDigit(t[0])
    && forall i :: 0 <= i < |t| ==> DigitOrJoiner(t, i)
  }

  /** Position `i` of `t` holds a digit, or an underscore that a digit follows. */
  predicate DigitOrJoiner(t: string, i: nat)
    requires i < |t|
  {
    IsDigit(t[i]) || (t[i] == '_' && i + 1 < |t| && IsDigit(t[i + 1]))
  }

  /** The value of a run of digits, underscores skipped. */
  function DigitsValue(t: string): nat
    decreases |t|
  {
    if t == [] then 0
    else if IsDigit(t[|t| - 1]) then 10 * DigitsValue(t[..|t| - 1]) + (t[|t| - 1] as int - '0' as int)
    else DigitsValue(t[..|t| - 1])
  }

  /** The four information separators U+001C..U+001F. `str.isspace()` holds for them, but
      `int()` does not skip them: below U+007F it skips only the ASCII whitespace. */
  predicate IsInfoSeparator(c: char) {
    '\U{1c}' <= c <= '\U{1f}'
  }

  predicate HasInfoSeparator(s: string) {
    exists i :: 0 <= i < |s| && IsInfoSeparator(s[i])
  }

  /** `int(s)`: surrounding whitespace, an optional sign, then a run of ASCII digits; None
      where Python raises ValueError on such strings. Digit strings of any length are taken. */
  function ParseInt(s: string): Option<int> {
    if HasInfoSeparator(s) then None
    else
      var t := Strip(s);
      if t != [] && (t[0] == '+' || t[0] == '-') then
        var magnitude: int := DigitsValue(t[1..]);
        if IsDigitRun(t[1..]) then Some(if t[0] == '-' then -magnitude else magnitude)
        else None
      else if IsDigitRun(t) then Some(DigitsValue(t))
      else None
  }

  /** Every string `int()` accepts holds a digit, and a negative value needs a minus sign. */
  lemma ParseIntNeedsDigit(s: string)
    requires ParseInt(s).Some?
    ensures exists i :: 0 <= i < |s| && IsDigit(s[i])
    ensures ParseInt(s).value < 0 ==> '-' in s
  {
    var t := Strip(s);
    var d := |s| - |TrimLeft(s)|;
    if t != [] && (t[0] == '+' || t[0] == '-') {
      assert s[d + 1] == t[1..][0];
      assert s[d] == t[0];
    } else {
      assert s[d] == t[0];
    }
  }

  /** `int()` refuses a string holding an information separator, wherever it stands. */
  lemma ParseIntRejectsSeparator(s: string, i: nat)
    requires i < |s| && IsInfoSeparator(s[i])
    ensures ParseInt(s) == None
  {
  }

  /** `str(n)` for a natural number. */
  function ShowNat(n: nat): string
    decreases n
  {
    if n < 10 then [('0' as int + n) as char]
    else ShowNat(n / 10) + [('0' as int + n % 10) as char]
  }

  /** `str(n)`. */
  function ShowInt(n: int): string {
    if n < 0 then "-" + ShowNat(-n) else ShowNat(n)
  }

  lemma {:induction false} ShowNatDigits(n: nat)
    ensures |ShowNat(n)| >= 1
    ensures forall i :: 0 <= i < |ShowNat(n)| ==> IsDigit(ShowNat(n)[i])
    ensures DigitsValue(ShowNat(n)) == n
    decreases n
  {
    if n >= 10 {
      ShowNatDigits(n / 10);
      var s := ShowNat(n);
      assert s[..|s| - 1] == ShowNat(n / 10);
    }
  }

  /** A string of digits only holds no information separator and is its own strip. */
  lemma DigitsPlain(t: string)
    requires t != [] && forall i :: 0 <= i < |t| ==> IsDigit(t[i])
    ensures IsDigitRun(t) && Strip(t) == t
    ensures !HasInfoSeparator(t)
  {
    StripUnchanged(t);
  }

  /** A string whose strip is a run of digits parses to their value. */
  lemma ParseStrippedUnsigned(s: string, t: string)
    requires IsDigitRun(t) && !HasInfoSeparator(s) && Strip(s) == t
    ensures ParseInt(s) == Some(DigitsValue(t))
  {
  }

  /** A string whose strip is a minus sign then a run of digits parses to minus their value. */
  lemma ParseStrippedNegative(s: string, t: string)
    requires IsDigitRun(t) && !HasInfoSeparator(s) && Strip(s) == ['-'] + t
    ensures ParseInt(s) == Some(-(DigitsValue(t) as int))
  {
    assert Strip(s)[1..] == t;
  }

  /** `int()` of a string of digits is their value. */
  lemma ParseUnsigned(t: string)
    requires t != [] && forall i :: 0 <= i < |t| ==> IsDigit(t[i])
    ensures ParseInt(t) == Some(DigitsValue(t))
  {
    DigitsPlain(t);
    ParseStrippedUnsigned(t, t);
  }

  /** A minus sign and a string of digits hold no information separator. */
  lemma NegativeHasNoSeparator(t: string)
    requires forall i :: 0 <= i < |t| ==> IsDigit(t[i])
    ensures !HasInfoSeparator(['-'] + t)
  {
    var s := ['-'] + t;
    forall i | 0 <= i < |s|
      ensures !IsInfoSeparator(s[i])
    {
      if i > 0 {
        assert s[i] == t[i - 1];
      }
    }
  }

  /** A minus sign and a string of digits are their own strip. */
  lemma NegativeIsStripped(t: string)
    requires t != [] && forall i :: 0 <= i < |t| ==> IsDigit(t[i])
    ensures Strip(['-'] + t) == ['-'] + t
  {
    var s := ['-'] + t;
    assert s[|s| - 1] == t[|t| - 1];
    StripUnchanged(s);
  }

  /** `int()` of a minus sign and a string of digits is minus their value. */
  lemma ParseNegative(t: string)
    requires t != [] && forall i :: 0 <= i < |t| ==> IsDigit(t[i])
    ensures ParseInt(['-'] + t) == Some(-(DigitsValue(t) as int))
  {
    DigitsPlain(t);
    NegativeHasNoSeparator(t);
    NegativeIsStripped(t);
    ParseStrippedNegative(['-'] + t, t);
  }

  /** `int(str(n)) == n`: parsing inverts printing. */
  lemma ParseShowInt(n: int)
    ensures ParseInt(ShowInt(n)) == Some(n)
  {
    var m: nat := if n < 0 then -n else n;
    ShowNatDigits(m);
    if n < 0 {
      ParseNegative(ShowNat(m));
      assert ShowInt(n) == ['-'] + ShowNat(m);
    } else {
      ParseUnsigned(ShowNat(m));
    }
  }

  predicate IsLetter(c: char) { 'a' <= c <= 'z' || 'A' <= c <= 'Z' }

  lemma LetterBreaksRun(t: string, j: nat)
    requires j < |t| && IsLetter(t[j])
    ensures !IsDigitRun(t)
  {
    assert !DigitOrJoiner(t, j);
  }

  /** A string holding an ASCII letter is not an integer. */
  lemma ParseIntRejectsLetter(s: string, i: nat)
    requires i < |s| && IsLetter(s[i])
    ensures ParseInt(s) == None
  {
    StripKeeps(s, i);
    var t := Strip(s);
    var j :| 0 <= j < |t| && t[j] == s[i];
    LetterBreaksRun(t, j);
    if j > 0 {
      assert t[1..][j - 1] == s[i];
      LetterBreaksRun(t[1..], j - 1);
    }
  }
}
