/**
 * The few pieces of Python's `str` behaviour the prober relies on:
 * `strip()`, `find`, `split(sep)`, `sep.join(parts)`, ASCII `upper()`
 * and `str(n)` for a non-negative integer.
 */
module Strings {
  import opened Wrappers

  /** Python's `str.isspace()`: exactly the characters `str.strip()` removes by default. */
  predicate IsSpace(c: char)
  {
    var n := c as int;
    9 <= n <= 13 || 28 <= n <= 32 || n == 0x85 || n == 0xA0 || n == 0x1680
    || 0x2000 <= n <= 0x200A || n == 0x2028 || n == 0x2029 || n == 0x202F
    || n == 0x205F || n == 0x3000
  }

  /** `s.lstrip()`: drops the leading whitespace and nothing else. */
  function TrimLeft(s: string): (r: string)
    ensures |r| <= |s| && r == s[|s| - |r|..]
    ensures forall i | 0 <= i < |s| - |r| :: IsSpace(s[i])
    ensures r == [] || !IsSpace(r[0])
  {
    if |s| > 0 && IsSpace(s[0]) then TrimLeft(s[1..]) else s
  }

  /** `s.rstrip()`: drops the trailing whitespace and nothing else. */
  function TrimRight(s: string): (r: string)
    ensures |r| <= |s| && r == s[..|r|]
    ensures forall i | |r| <= i < |s| :: IsSpace(s[i])
    ensures r == [] || !IsSpace(r[|r| - 1])
  {
    if |s| > 0 && IsSpace(s[|s| - 1]) then TrimRight(s[..|s| - 1]) else s
  }

  /** The number of whitespace characters `strip()` removes from the front of `s`. */
  function LeadingSpaces(s: string): nat
  {
    |s| - |TrimLeft(s)|
  }

  /**
   * `s.strip()`: the result is the slice of `s` that starts after the
   * leading whitespace, everything cut off on either side is whitespace,
   * and the result neither starts nor ends with whitespace.
   */
  function Strip(s: string): (r: string)
    ensures LeadingSpaces(s) + |r| <= |s|
    ensures r == s[LeadingSpaces(s)..LeadingSpaces(s) + |r|]
    ensures forall i | 0 <= i < LeadingSpaces(s) :: IsSpace(s[i])
    ensures forall i | LeadingSpaces(s) + |r| <= i < |s| :: IsSpace(s[i])
    ensures r == [] || (!IsSpace(r[0]) && !IsSpace(r[|r| - 1]))
  {
    TrimRight(TrimLeft(s))
  }

  /** Every character of `s` is whitespace (also when `s` is empty). */
  predicate AllSpace(s: string)
  {
    forall i | 0 <= i < |s| :: IsSpace(s[i])
  }

  /** `lstrip()` of whitespace followed by a text that does not start with whitespace is that text. */
  lemma {:induction false} TrimLeftPadded(front: string, u: string)
    requires AllSpace(front)
    requires u == [] || !IsSpace(u[0])
    ensures TrimLeft(front + u) == u
  {
    if front == [] {
      assert front + u == u;
    } else {
      assert (front + u)[0] == front[0];
      assert (front + u)[1..] == front[1..] + u;
      TrimLeftPadded(front[1..], u);
    }
  }

  /** `rstrip()` of a text that does not end with whitespace, followed by whitespace, is that text. */
  lemma {:induction false} TrimRightPadded(u: string, back: string)
    requires AllSpace(back)
    requires u == [] || !IsSpace(u[|u| - 1])
    ensures TrimRight(u + back) == u
  {
    if back == [] {
      assert u + back == u;
    } else {
      var s := u + back;
      assert s[|s| - 1] == back[|back| - 1];
      assert s[..|s| - 1] == u + back[..|back| - 1];
      TrimRightPadded(u, back[..|back| - 1]);
    }
  }

  /** `s.strip()` is empty exactly when `s` is all whitespace. */
  lemma StripEmptyIff(s: string)
    ensures Strip(s) == [] <==> forall i | 0 <= i < |s| :: IsSpace(s[i])
  {
    var r := Strip(s);
    if r != [] {
      assert s[LeadingSpaces(s)] == r[0];
    }
  }

  /** Stripping twice is stripping once. */
  lemma StripIdempotent(s: string)
    ensures Strip(Strip(s)) == Strip(s)
  {
    var r := Strip(s);
    assert TrimLeft(r) == r;
    assert TrimRight(r) == r;
  }

  /** `s.find(c)`: the index of the first `c`, or None when `c` does not occur. */
  function Find(s: string, c: char): (r: Option<nat>)
    ensures r.None? <==> c !in s
    ensures r.Some? ==> r.value < |s| && s[r.value] == c && c !in s[..r.value]
  {
    if s == [] then None
    else if s[0] == c then Some(0)
    else
      match Find(s[1..], c)
      case None => None
      case Some(i) =>
        assert s[..i + 1] == [s[0]] + s[1..][..i];
        Some(i + 1)
  }

  /** The first occurrence is the only index with no earlier `c`. */
  lemma FindIsFirst(s: string, c: char, i: nat)
    requires i < |s| && s[i] == c && c !in s[..i]
    ensures Find(s, c) == Some(i)
  {
  }

  /**
   * `s.split(sep)` for a one-character separator: the maximal pieces
   * between separators, an empty piece where two separators meet or at
   * either end, and `[""]` for the empty string.
   */
  function Split(s: string, sep: char): (parts: seq<string>)
    ensures |parts| >= 1
    ensures forall k | 0 <= k < |parts| :: sep !in parts[k]
  {
    if s == [] then [""]
    else
      var rest := Split(s[1..], sep);
      if s[0] == sep then [""] + rest else [[s[0]] + rest[0]] + rest[1..]
  }

  /** `sep.join(parts)`; joining no parts gives the empty string. */
  function Join(sep: string, parts: seq<string>): string
  {
    if |parts| == 0 then ""
    else if |parts| == 1 then parts[0]
    else parts[0] + sep + Join(sep, parts[1..])
  }

  /** Joining the pieces of a split with the same separator gives back the text. */
  lemma {:induction false} JoinSplit(s: string, sep: char)
    ensures Join([sep], Split(s, sep)) == s
  {
    if s != [] {
      var rest := Split(s[1..], sep);
      JoinSplit(s[1..], sep);
      if s[0] == sep {
        assert Join([sep], [""] + rest) == "" + [sep] + Join([sep], rest);
      } else if |rest| > 1 {
        var parts := [[s[0]] + rest[0]] + rest[1..];
        assert parts[1..] == rest[1..];
        assert Join([sep], rest) == rest[0] + [sep] + Join([sep], rest[1..]);
      }
    }
  }

  /** A piece that holds no separator splits to itself. */
  lemma {:induction false} SplitWithoutSeparator(p: string, sep: char)
    requires sep !in p
    ensures Split(p, sep) == [p]
  {
    if p != [] {
      SplitWithoutSeparator(p[1..], sep);
      assert p[0] != sep by { assert p[0] in p; }
      assert [p[0]] + p[1..] == p;
    }
  }

  /** The text before the first separator is the first piece. */
  lemma {:induction false} SplitAtSeparator(p: string, sep: char, t: string)
    requires sep !in p
    ensures Split(p + [sep] + t, sep) == [p] + Split(t, sep)
  {
    if p != [] {
      assert (p + [sep] + t)[1..] == p[1..] + [sep] + t;
      assert p[0] != sep by { assert p[0] in p; }
      assert sep !in p[1..] by { assert forall c | c in p[1..] :: c in p; }
      SplitAtSeparator(p[1..], sep, t);
      assert [p[0]] + p[1..] == p;
    } else {
      assert (p + [sep] + t)[1..] == t;
    }
  }

  /**
   * Splitting a join gives back the parts, provided no part holds the
   * separator and there is at least one part.
   */
  lemma {:induction false} SplitJoin(parts: seq<string>, sep: char)
    requires |parts| >= 1
    requires forall k | 0 <= k < |parts| :: sep !in parts[k]
    ensures Split(Join([sep], parts), sep) == parts
  {
    if |parts| == 1 {
      SplitWithoutSeparator(parts[0], sep);
    } else {
      SplitJoin(parts[1..], sep);
      SplitAtSeparator(parts[0], sep, Join([sep], parts[1..]));
    }
  }

  /** ASCII upper-casing of one character. */
  function UpperChar(c: char): char
  {
    if 'a' <= c <= 'z' then (c as int - 32) as char else c
  }

  /** `s.upper()` restricted to ASCII letters. */
  function Upper(s: string): string
  {
    seq(|s|, i requires 0 <= i < |s| => UpperChar(s[i]))
  }

  predicate IsDigit(c: char)
  {
    '0' <= c <= '9'
  }

  function DigitChar(d: nat): char
    requires d < 10
  {
    ('0' as int + d) as char
  }

  /** `str(n)` for a non-negative integer: its decimal digits, at least one. */
  function Decimal(n: nat): (r: string)
    ensures |r| >= 1
    ensures forall i | 0 <= i < |r| :: IsDigit(r[i])
  {
    if n < 10 then [DigitChar(n)] else Decimal(n / 10) + [DigitChar(n % 10)]
  }

  function DigitValue(c: char): nat
  {
    if IsDigit(c) then c as int - '0' as int else 0
  }

  /** `int(s)` for a string of decimal digits. */
  function ParseDecimal(s: string): nat
  {
    if s == [] then 0 else ParseDecimal(s[..|s| - 1]) * 10 + DigitValue(s[|s| - 1])
  }

  /** Reading back the decimal text of `n` gives `n`. */
  lemma {:induction false} ParseDecimalInverts(n: nat)
    ensures ParseDecimal(Decimal(n)) == n
  {
    if n >= 10 {
      var d := Decimal(n / 10);
      assert (d + [DigitChar(n % 10)])[..|d|] == d;
      ParseDecimalInverts(n / 10);
    }
  }
}
