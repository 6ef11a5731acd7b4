/** Character and string operations the pipeline relies on: JavaScript whitespace and
    `trim()`, decimal rendering of numbers, `split`, first-occurrence `replace`, the
    case-insensitive substring test behind the `/.../i` field-name patterns, and the
    total order that stands in for `localeCompare` and for SQL text and date ordering. */
module Strings {

  // ---------------------------------------------------------------------------
  // Whitespace and trim
  // ---------------------------------------------------------------------------

  /** The characters JavaScript's `trim()` removes and `\s` matches: WhiteSpace
      (tab, vertical tab, form feed, space, no-break space, byte order mark and the
      space separators) and LineTerminator (LF, CR, LS, PS). */
  predicate IsSpace(c: char) {
    c == '\t' || c == '\n' || c == '\U{000B}' || c == '\U{000C}' || c == '\r' || c == ' '
    || c == '\U{00A0}' || c == '\U{1680}' || ('\U{2000}' <= c <= '\U{200A}')
    || c == '\U{2028}' || c == '\U{2029}' || c == '\U{202F}' || c == '\U{205F}'
    || c == '\U{3000}' || c == '\U{FEFF}'
  }

  /** Every character of `s` is whitespace (this includes the empty string). */
  predicate IsBlank(s: string) {
    forall i :: 0 <= i < |s| ==> IsSpace(s[i])
  }

  /** Number of leading whitespace characters. */
  function LeadingSpaces(s: string): (k: nat)
    ensures k <= |s|
    ensures forall i :: 0 <= i < k ==> IsSpace(s[i])
    ensures k < |s| ==> !IsSpace(s[k])
  {
    if s == [] || !IsSpace(s[0]) then 0 else 1 + LeadingSpaces(s[1..])
  }

  /** Length of `s` without its trailing whitespace. */
  function EndWithoutSpaces(s: string): (k: nat)
    ensures k <= |s|
    ensures forall i :: k <= i < |s| ==> IsSpace(s[i])
    ensures k > 0 ==> !IsSpace(s[k - 1])
  {
    if s == [] || !IsSpace(s[|s| - 1]) then |s| else EndWithoutSpaces(s[..|s| - 1])
  }

  /** `s.trim()`: the slice of `s` left after removing leading and trailing whitespace. */
  function Trim(s: string): (r: string)
    ensures r == [] <==> IsBlank(s)
    ensures r != [] ==> !IsSpace(r[0]) && !IsSpace(r[|r| - 1])
  {
    var e := EndWithoutSpaces(s);
    var b := LeadingSpaces(s[..e]);
    assert e > 0 ==> !IsSpace(s[..e][e - 1]);
    assert b == e ==> e == 0;
    s[b..e]
  }

  /** Trimming removes whitespace only, and only at the two ends: the result is the slice
      `s[b..e]` with nothing but whitespace before `b` and from `e` on. */
  lemma TrimSlice(s: string) returns (b: nat, e: nat)
    ensures b <= e <= |s| && Trim(s) == s[b..e]
    ensures forall i :: 0 <= i < b ==> IsSpace(s[i])
    ensures forall i :: e <= i < |s| ==> IsSpace(s[i])
  {
    e := EndWithoutSpaces(s);
    b := LeadingSpaces(s[..e]);
    assert forall i :: 0 <= i < b ==> s[i] == s[..e][i];
  }

  /** Trimming is idempotent, and a string that starts and ends with non-whitespace is
      its own trim. */
  lemma TrimOfTrimmed(s: string)
    requires s != [] ==> !IsSpace(s[0]) && !IsSpace(s[|s| - 1])
    ensures Trim(s) == s
  {
    if s != [] {
      assert EndWithoutSpaces(s) == |s|;
      assert s[..|s|] == s;
      assert LeadingSpaces(s) == 0;
    }
  }

  lemma TrimIdempotent(s: string)
    ensures Trim(Trim(s)) == Trim(s)
  {
    TrimOfTrimmed(Trim(s));
  }

  // ---------------------------------------------------------------------------
  // Decimal rendering (template literals `${n}` and String(n) on integers)
  // ---------------------------------------------------------------------------

  predicate IsDigit(c: char) {
    '0' <= c <= '9'
  }

  predicate AllDigits(s: string) {
    forall i :: 0 <= i < |s| ==> IsDigit(s[i])
  }

  function DigitChar(d: nat): (c: char)
    requires d < 10
    ensures IsDigit(c) && c as int - '0' as int == d
  {
    ('0' as int + d) as char
  }

  /** The decimal text of `n`, without sign or leading zeros. */
  function Decimal(n: nat): (r: string)
    ensures r != [] && AllDigits(r)
    ensures |r| > 1 ==> r[0] != '0'
  {
    if n < 10 then [DigitChar(n)] else Decimal(n / 10) + [DigitChar(n % 10)]
  }

  /** The number a string of digits denotes; the inverse of `Decimal`. */
  function DecimalValue(s: string): nat
    requires AllDigits(s)
  {
    if s == [] then 0 else 10 * DecimalValue(s[..|s| - 1]) + (s[|s| - 1] as int - '0' as int)
  }

  lemma {:induction false} DecimalRoundTrip(n: nat)
    ensures DecimalValue(Decimal(n)) == n
  {
    if n >= 10 {
      var r := Decimal(n);
      assert r[..|r| - 1] == Decimal(n / 10);
      DecimalRoundTrip(n / 10);
    }
  }

  /** Distinct numbers render as distinct texts. */
  lemma DecimalInjective(m: nat, n: nat)
    requires Decimal(m) == Decimal(n)
    ensures m == n
  {
    DecimalRoundTrip(m);
    DecimalRoundTrip(n);
  }

  // ---------------------------------------------------------------------------
  // Counting, searching, replacing, splitting
  // ---------------------------------------------------------------------------

  function Count(c: char, s: string): (n: nat)
    ensures n <= |s|
    ensures n == 0 <==> c !in s
  {
    if s == [] then 0 else (if s[0] == c then 1 else 0) + Count(c, s[1..])
  }

  lemma {:induction false} CountAppend(c: char, a: string, b: string)
    ensures Count(c, a + b) == Count(c, a) + Count(c, b)
  {
    if a == [] {
      assert a + b == b;
    } else {
      assert (a + b)[1..] == a[1..] + b;
      CountAppend(c, a[1..], b);
    }
  }

  /** Index of the first `c` in `s`, or `|s|` when there is none. */
  function IndexOf(s: string, c: char): (k: nat)
    ensures k <= |s|
    ensures k < |s| ==> s[k] == c
    ensures forall i :: 0 <= i < k ==> s[i] != c
    ensures k == |s| <==> c !in s
  {
    if s == [] then 0 else if s[0] == c then 0 else 1 + IndexOf(s[1..], c)
  }

  /** `s.replace(from, to)` with a one-character string pattern: only the first
      occurrence of `from` is replaced. */
  function ReplaceFirst(s: string, from: char, to: char): (r: string)
    ensures |r| == |s|
    ensures forall i :: 0 <= i < |s| ==> r[i] == (if i == IndexOf(s, from) then to else s[i])
    ensures from !in s ==> r == s
    ensures from in s ==> multiset(r) == multiset(s) - multiset{from} + multiset{to}
  {
    var k := IndexOf(s, from);
    if k == |s| then s
    else
      assert s == s[..k] + [s[k]] + s[k + 1..];
      s[..k] + [to] + s[k + 1..]
  }

  /** `s.replace(/\s/g, "")`: every whitespace character removed, all others kept. */
  function RemoveSpaces(s: string): (r: string)
    ensures |r| <= |s|
    ensures forall i :: 0 <= i < |r| ==> !IsSpace(r[i])
    ensures forall c :: !IsSpace(c) ==> multiset(r)[c] == multiset(s)[c]
  {
    if s == [] then []
    else
      assert s == [s[0]] + s[1..];
      if IsSpace(s[0]) then RemoveSpaces(s[1..]) else [s[0]] + RemoveSpaces(s[1..])
  }

  /** `s.split(sep)` with a one-character separator: the pieces between separators, at
      least one piece, empty pieces kept. */
  function Split(s: string, sep: char): (parts: seq<string>)
    ensures |parts| == Count(sep, s) + 1
    ensures forall i :: 0 <= i < |parts| ==> sep !in parts[i]
  {
    if s == [] then [""]
    else
      var rest := Split(s[1..], sep);
      if s[0] == sep then [""] + rest else [[s[0]] + rest[0]] + rest[1..]
  }

  /** `parts.join(sep)`. */
  function Join(parts: seq<string>, sep: char): string {
    if parts == [] then ""
    else if |parts| == 1 then parts[0]
    else parts[0] + [sep] + Join(parts[1..], sep)
  }

  /** Splitting loses nothing: joining the pieces gives back the original text. */
  lemma {:induction false} JoinSplit(s: string, sep: char)
    ensures Join(Split(s, sep), sep) == s
  {
    if s != [] {
      var rest := Split(s[1..], sep);
      JoinSplit(s[1..], sep);
      if s[0] == sep {
        assert ([""] + rest)[1..] == rest;
      } else {
        var parts := [[s[0]] + rest[0]] + rest[1..];
        if |rest| == 1 {
          assert Join(parts, sep) == [s[0]] + rest[0];
        } else {
          assert parts[1..] == rest[1..];
          assert Join(parts, sep) == [s[0]] + rest[0] + [sep] + Join(rest[1..], sep);
        }
      }
    }
  }

  /** Splitting after a separator-free prefix: the prefix opens the first piece. */
  lemma {:induction false} SplitPrefix(a: string, b: string, sep: char)
    requires sep !in a
    ensures Split(a + b, sep) == [a + Split(b, sep)[0]] + Split(b, sep)[1..]
  {
    if a != [] {
      SplitPrefix(a[1..], b, sep);
      assert (a + b)[1..] == a[1..] + b;
      assert (a + b)[0] == a[0];
      assert [a[0]] + (a[1..] + Split(b, sep)[0]) == a + Split(b, sep)[0];
    } else {
      var parts := Split(b, sep);
      assert a + b == b;
      assert a + parts[0] == parts[0];
      assert parts == [parts[0]] + parts[1..];
    }
  }

  /** Joining separator-free pieces and splitting again gives the pieces back. */
  lemma {:induction false} SplitJoin(parts: seq<string>, sep: char)
    requires parts != []
    requires forall i :: 0 <= i < |parts| ==> sep !in parts[i]
    ensures Split(Join(parts, sep), sep) == parts
  {
    if |parts| == 1 {
      SplitPrefix(parts[0], [], sep);
      assert parts[0] + [] == parts[0];
      assert Join(parts, sep) == parts[0];
    } else {
      var rest := Join(parts[1..], sep);
      assert Join(parts, sep) == parts[0] + [sep] + rest;
      SplitJoin(parts[1..], sep);
      var tail := [sep] + rest;
      assert tail[1..] == rest;
      assert Split(tail, sep) == [""] + parts[1..];
      assert parts[0] + [sep] + rest == parts[0] + tail;
      SplitPrefix(parts[0], tail, sep);
      assert Split(parts[0] + tail, sep) == [parts[0] + ""] + parts[1..];
      assert parts[0] + "" == parts[0];
      assert [parts[0]] + parts[1..] == parts;
    }
  }

  // ---------------------------------------------------------------------------
  // Case-insensitive substring search (regular expressions with the `i` flag)
  // ---------------------------------------------------------------------------

  /** A representative of the character's case class as a case-insensitive JavaScript
      regular expression (without the `u` flag) sees it: ASCII letters and the Cyrillic
      block fold to lower case, and the historic Cyrillic letters U+1C80..U+1C88 fold
      to the letter whose capital they share. Other characters stand for themselves. */
  function FoldCase(c: char): char {
    if 'A' <= c <= 'Z' then (c as int + 32) as char
    else if '\U{0410}' <= c <= '\U{042F}' then (c as int + 32) as char
    else if '\U{0400}' <= c <= '\U{040F}' then (c as int + 80) as char
    else if c == '\U{1C80}' then '\U{0432}'
    else if c == '\U{1C81}' then '\U{0434}'
    else if c == '\U{1C82}' then '\U{043E}'
    else if c == '\U{1C83}' then '\U{0441}'
    else if c == '\U{1C84}' || c == '\U{1C85}' then '\U{0442}'
    else if c == '\U{1C86}' then '\U{044A}'
    else if c == '\U{1C87}' then '\U{0463}'
    else if c == '\U{1C88}' then '\U{A64B}'
    else c
  }

  /** `s` begins with `p`, ignoring case. */
  predicate StartsWithFolded(s: string, p: string) {
    |p| <= |s| && forall i :: 0 <= i < |p| ==> FoldCase(s[i]) == FoldCase(p[i])
  }

  /** `s` contains `p` somewhere, ignoring case. */
  predicate ContainsFolded(s: string, p: string)
    decreases |s|
  {
    StartsWithFolded(s, p) || (s != [] && ContainsFolded(s[1..], p))
  }

  /** `/a|b|.../i.test(s)`: some alternative occurs in `s`, ignoring case. */
  predicate MatchesAnyFolded(s: string, alternatives: seq<string>) {
    exists a :: a in alternatives && ContainsFolded(s, a)
  }

  lemma {:induction false} ContainsFoldedAt(s: string, p: string, k: nat)
    requires k <= |s| && StartsWithFolded(s[k..], p)
    ensures ContainsFolded(s, p)
    decreases k
  {
    if k > 0 {
      assert s[1..][k - 1..] == s[k..];
      ContainsFoldedAt(s[1..], p, k - 1);
    } else {
      assert s[0..] == s;
    }
  }

  // ---------------------------------------------------------------------------
  // Ordering of strings
  // ---------------------------------------------------------------------------

  /** Lexicographic order on code points. It stands in for `localeCompare` and for the
      database's text ordering; for ISO dates (YYYY-MM-DD) it is chronological order. */
  predicate LexLe(a: string, b: string)
    decreases |a|
  {
    a == [] || (b != [] && (a[0] < b[0] || (a[0] == b[0] && LexLe(a[1..], b[1..]))))
  }

  lemma {:induction false} LexLeReflexive(a: string)
    ensures LexLe(a, a)
  {
    if a != [] { LexLeReflexive(a[1..]); }
  }

  lemma {:induction false} LexLeTotal(a: string, b: string)
    ensures LexLe(a, b) || LexLe(b, a)
  {
    if a != [] && b != [] && a[0] == b[0] { LexLeTotal(a[1..], b[1..]); }
  }

  lemma {:induction false} LexLeAntisymmetric(a: string, b: string)
    requires LexLe(a, b) && LexLe(b, a)
    ensures a == b
  {
    if a != [] && b != [] {
      LexLeAntisymmetric(a[1..], b[1..]);
      assert a == [a[0]] + a[1..] && b == [b[0]] + b[1..];
    }
  }

  lemma {:induction false} LexLeTransitive(a: string, b: string, c: string)
    requires LexLe(a, b) && LexLe(b, c)
    ensures LexLe(a, c)
  {
    if a != [] && b != [] && c != [] && a[0] == b[0] && b[0] == c[0] {
      LexLeTransitive(a[1..], b[1..], c[1..]);
    }
  }

  /** Three-way comparison in the style of `localeCompare`: negative, zero or positive. */
  function Compare(a: string, b: string): (r: int)
    ensures r == 0 <==> a == b
    ensures r < 0 <==> a != b && LexLe(a, b)
    ensures r > 0 <==> a != b && LexLe(b, a)
  {
    LexLeTotal(a, b);
    if a == b then 0
    else if LexLe(a, b) then (LexLeNotBoth(a, b); -1)
    else 1
  }

  lemma LexLeNotBoth(a: string, b: string)
    requires a != b && LexLe(a, b)
    ensures !LexLe(b, a)
  {
    if LexLe(b, a) { LexLeAntisymmetric(a, b); }
  }
}
