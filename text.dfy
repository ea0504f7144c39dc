/**
 * The Python string operations the service relies on: `strip`, `lstrip`/`rstrip` of one
 * character, substring tests, `split`/`join` on one separator, and integers written in
 * decimal (`str(n)`, `f"{n}"`) or lower-case hexadecimal (`f"{n:x}"`), with the parsing
 * that `int(...)` does on a run of ASCII digits.
 */
module Text {

  /** Python's `str.isspace()`: the characters `str.strip()` removes when given no argument. */
  predicate IsSpace(c: char) {
    || ('\t' <= c <= '\r')
    || ('\U{1C}' <= c <= '\U{1F}')
    || c == ' ' || c == '\U{85}' || c == '\U{A0}' || c == '\U{1680}'
    || ('\U{2000}' <= c <= '\U{200A}')
    || c == '\U{2028}' || c == '\U{2029}' || c == '\U{202F}' || c == '\U{205F}' || c == '\U{3000}'
  }

  /** `s.lstrip()`: the longest suffix of `s` that does not start with whitespace. */
  function LStrip(s: string): (r: string)
    ensures |r| <= |s| && r == s[|s| - |r|..]
    ensures r == [] || !IsSpace(r[0])
    ensures forall i :: 0 <= i < |s| - |r| ==> IsSpace(s[i])
  {
    if |s| > 0 && IsSpace(s[0]) then LStrip(s[1..]) else s
  }

  /** `s.rstrip()`: the longest prefix of `s` that does not end with whitespace. */
  function RStrip(s: string): (r: string)
    ensures |r| <= |s| && r == s[..|r|]
    ensures r == [] || !IsSpace(r[|r| - 1])
    ensures forall i :: |r| <= i < |s| ==> IsSpace(s[i])
  {
    if |s| > 0 && IsSpace(s[|s| - 1]) then RStrip(s[..|s| - 1]) else s
  }

  /** `s.strip()`. */
  function Strip(s: string): (r: string)
    ensures r == [] || (!IsSpace(r[0]) && !IsSpace(r[|r| - 1]))
  {
    RStrip(LStrip(s))
  }

  /** Stripping is idempotent, so a stripped string is left alone by a second strip. */
  lemma StripIdempotent(s: string)
    ensures Strip(Strip(s)) == Strip(s)
  {
    var r := Strip(s);
    assert LStrip(r) == r;
    assert RStrip(r) == r;
  }

  /** A string that neither starts nor ends with whitespace is its own strip. */
  lemma StripOfTrimmed(s: string)
    requires s == [] || (!IsSpace(s[0]) && !IsSpace(s[|s| - 1]))
    ensures Strip(s) == s
  {
    assert LStrip(s) == s;
  }

  /** A string holding a character that is not whitespace does not strip to nothing. */
  lemma StripOfVisible(s: string, i: nat)
    requires i < |s| && !IsSpace(s[i])
    ensures Strip(s) != []
  {
    var l := LStrip(s);
    assert l != [];
    assert l[i - (|s| - |l|)] == s[i];
  }

  /** `s.lstrip(c)` for a one-character argument. */
  function LStripChar(s: string, c: char): (r: string)
    ensures |r| <= |s| && r == s[|s| - |r|..]
    ensures r == [] || r[0] != c
    ensures forall i :: 0 <= i < |s| - |r| ==> s[i] == c
  {
    if |s| > 0 && s[0] == c then LStripChar(s[1..], c) else s
  }

  /** `s.rstrip(c)` for a one-character argument. */
  function RStripChar(s: string, c: char): (r: string)
    ensures |r| <= |s| && r == s[..|r|]
    ensures r == [] || r[|r| - 1] != c
    ensures forall i :: |r| <= i < |s| ==> s[i] == c
  {
    if |s| > 0 && s[|s| - 1] == c then RStripChar(s[..|s| - 1], c) else s
  }

  /** `s.endswith(suffix)`; `s.startswith(prefix)` is Dafny's prefix test `prefix <= s`. */
  predicate EndsWith(s: string, suffix: string) {
    |suffix| <= |s| && s[|s| - |suffix|..] == suffix
  }

  /** Python's substring test `sub in s`. */
  predicate Contains(s: string, sub: string)
    decreases |s|
  {
    sub <= s || (|s| > 0 && Contains(s[1..], sub))
  }

  /** ASCII upper-casing; enough for comparisons against an upper-case ASCII literal. */
  function UpperChar(c: char): char {
    if 'a' <= c <= 'z' then (c as int - 'a' as int + 'A' as int) as char else c
  }

  function Upper(s: string): (r: string)
    ensures |r| == |s| && forall i :: 0 <= i < |s| ==> r[i] == UpperChar(s[i])
  {
    if s == [] then [] else [UpperChar(s[0])] + Upper(s[1..])
  }

  /** Concatenation regroups; stated once so that long proofs can cite it instead of rediscovering it. */
  lemma ConcatAssociative<T>(a: seq<T>, b: seq<T>, c: seq<T>)
    ensures (a + b) + c == a + (b + c)
  {
  }

  // ---------------------------------------------------------------------------
  // Integers written as digits.

  predicate IsDigit(c: char) {
    '0' <= c <= '9'
  }

  predicate AllDigits(s: string) {
    forall i :: 0 <= i < |s| ==> IsDigit(s[i])
  }

  /** The two radixes the service prints numbers in. */
  type Base = b: nat | b == 10 || b == 16 witness 10

  /** The lower-case digit Python prints for `d`. */
  function DigitChar(d: nat): char
    requires d < 16
  {
    if d < 10 then ('0' as int + d) as char else ('a' as int + d - 10) as char
  }

  /** The value of a digit character, the inverse of `DigitChar`. */
  function DigitValue(c: char): nat {
    if '0' <= c <= '9' then c as int - '0' as int
    else if 'a' <= c <= 'f' then c as int - 'a' as int + 10
    else 0
  }

  predicate IsBaseDigit(c: char, base: Base) {
    exists d :: 0 <= d < base && DigitChar(d) == c
  }

  /** `format(n, 'd')` for base 10, `format(n, 'x')` for base 16. */
  function FormatNat(n: nat, base: Base): (r: string)
    ensures |r| > 0
    ensures forall i :: 0 <= i < |r| ==> '0' <= r[i] <= '9' || 'a' <= r[i] <= 'f'
    decreases n
  {
    if n < base then [DigitChar(n)] else FormatNat(n / base, base) + [DigitChar(n % base)]
  }

  /** The value of a string of digits, most significant first (Python's `int(s, base)`). */
  function ParseNat(s: string, base: Base): nat
    decreases |s|
  {
    if s == [] then 0 else ParseNat(s[..|s| - 1], base) * base + DigitValue(s[|s| - 1])
  }

  /** Decimal digits are exactly the characters `FormatNat(_, 10)` produces. */
  lemma {:induction false} FormatDecimalIsDigits(n: nat)
    ensures AllDigits(FormatNat(n, 10))
    decreases n
  {
    if n >= 10 {
      FormatDecimalIsDigits(n / 10);
    }
  }

  /** Parsing inverts formatting, in every base. */
  lemma {:induction false} ParseFormat(n: nat, base: Base)
    ensures ParseNat(FormatNat(n, base), base) == n
    decreases n
  {
    var s := FormatNat(n, base);
    if n < base {
      assert s[..|s| - 1] == [];
      DigitValueOfChar(n);
    } else {
      var q, r := n / base, n % base;
      assert s == FormatNat(q, base) + [DigitChar(r)];
      assert s[..|s| - 1] == FormatNat(q, base);
      DigitValueOfChar(r);
      calc {
        ParseNat(s, base);
        ParseNat(FormatNat(q, base), base) * base + DigitValue(DigitChar(r));
        { ParseFormat(q, base); }
        q * base + r;
        n;
      }
    }
  }

  lemma DigitValueOfChar(d: nat)
    requires d < 16
    ensures DigitValue(DigitChar(d)) == d
  {
  }

  /** Two numbers with the same digits are the same number. */
  lemma FormatInjective(m: nat, n: nat, base: Base)
    requires FormatNat(m, base) == FormatNat(n, base)
    ensures m == n
  {
    ParseFormat(m, base);
    ParseFormat(n, base);
  }

  /** `f"{i}"` / `f"{i:x}"` for a possibly negative integer: a minus sign, then the magnitude. */
  function FormatInt(i: int, base: Base): (r: string)
    ensures |r| > 0
    ensures forall k :: 0 <= k < |r| ==> r[k] == '-' || '0' <= r[k] <= '9' || 'a' <= r[k] <= 'f'
  {
    if i < 0 then "-" + FormatNat(-i, base) else FormatNat(i, base)
  }

  lemma FormatIntInjective(i: int, j: int, base: Base)
    requires FormatInt(i, base) == FormatInt(j, base)
    ensures i == j
  {
    var s := FormatInt(i, base);
    // only a negative number is written with a leading minus sign
    assert (s[0] == '-') == (i < 0);
    assert (FormatInt(j, base)[0] == '-') == (j < 0);
    if i < 0 {
      assert FormatNat(-i, base) == s[1..] == FormatNat(-j, base);
      FormatInjective(-i, -j, base);
    } else {
      FormatInjective(i, j, base);
    }
  }

  // ---------------------------------------------------------------------------
  // Splitting and joining on a single separator character.

  /** `s.split(sep)` for a one-character separator: always at least one piece. */
  function Split(s: string, sep: char): (parts: seq<string>)
    ensures |parts| >= 1
    ensures forall i :: 0 <= i < |parts| ==> sep !in parts[i]
    decreases |s|
  {
    if s == [] then [[]]
    else
      var rest := Split(s[1..], sep);
      if s[0] == sep then [[]] + rest else [[s[0]] + rest[0]] + rest[1..]
  }

  /** `sep.join(parts)`. */
  function Join(parts: seq<string>, sep: char): string
    requires |parts| >= 1
    decreases |parts|
  {
    if |parts| == 1 then parts[0] else parts[0] + [sep] + Join(parts[1..], sep)
  }

  lemma {:induction false} SplitWithoutSeparator(s: string, sep: char)
    requires sep !in s
    ensures Split(s, sep) == [s]
    decreases |s|
  {
    if s != [] {
      assert s[0] in s && sep !in s[1..];
      SplitWithoutSeparator(s[1..], sep);
      assert [s[0]] + s[1..] == s;
    }
  }

  lemma {:induction false} SplitAtFirst(a: string, sep: char, b: string)
    requires sep !in a
    ensures Split(a + [sep] + b, sep) == [a] + Split(b, sep)
    decreases |a|
  {
    if a == [] {
      assert ([sep] + b)[1..] == b;
    } else {
      assert (a + [sep] + b)[1..] == a[1..] + [sep] + b;
      SplitAtFirst(a[1..], sep, b);
      assert [a[0]] + a[1..] == a;
    }
  }

  /** Splitting a join of separator-free pieces gives the pieces back. */
  lemma {:induction false} SplitJoin(parts: seq<string>, sep: char)
    requires |parts| >= 1
    requires forall i :: 0 <= i < |parts| ==> sep !in parts[i]
    ensures Split(Join(parts, sep), sep) == parts
    decreases |parts|
  {
    if |parts| == 1 {
      SplitWithoutSeparator(parts[0], sep);
    } else {
      SplitJoin(parts[1..], sep);
      SplitAtFirst(parts[0], sep, Join(parts[1..], sep));
    }
  }

  /** Joining the pieces of a split gives the string back. */
  lemma {:induction false} JoinSplit(s: string, sep: char)
    ensures Join(Split(s, sep), sep) == s
    decreases |s|
  {
    if s != [] {
      JoinSplit(s[1..], sep);
      var rest := Split(s[1..], sep);
      var parts := Split(s, sep);
      if s[0] != sep {
        assert parts == [[s[0]] + rest[0]] + rest[1..];
        if |rest| == 1 {
          assert Join(parts, sep) == [s[0]] + rest[0];
        } else {
          assert parts[1..] == rest[1..];
          assert Join(rest, sep) == rest[0] + [sep] + Join(rest[1..], sep);
          assert Join(parts, sep) == ([s[0]] + rest[0]) + [sep] + Join(rest[1..], sep);
        }
      } else {
        assert parts == [[]] + rest;
        assert parts[1..] == rest;
        assert Join(parts, sep) == [] + [sep] + Join(rest, sep);
      }
      assert s == [s[0]] + s[1..];
    }
  }

  /** Two strings cut at their first separator agree on both halves. */
  lemma SeparatorSplitsUniquely(a: string, b: string, a': string, b': string, sep: char)
    requires sep !in a && sep !in a'
    requires a + [sep] + b == a' + [sep] + b'
    ensures a == a' && b == b'
  {
    var s := a + [sep] + b;
    assert forall i :: 0 <= i < |a| ==> s[i] == a[i] && a[i] != sep;
    assert forall i :: 0 <= i < |a'| ==> s[i] == a'[i] && a'[i] != sep;
    assert s[|a|] == sep && s[|a'|] == sep;
    assert |a| == |a'|;
    assert a == s[..|a|] == a';
    assert b == s[|a| + 1..] == b';
  }
}
