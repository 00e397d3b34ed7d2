/**
 * String operations from Foundation that the chat code applies:
 * `trimmingCharacters(in: .whitespacesAndNewlines)`, `uppercased()` and the
 * decimal form string interpolation gives an unsigned integer.
 */
module Text {

  /** Membership in `CharacterSet.whitespacesAndNewlines`: Unicode general
      category Z*, U+0009 to U+000D, and U+0085. */
  predicate IsWhitespaceOrNewline(c: char) {
    || '\U{0009}' <= c <= '\U{000D}'
    || c == ' ' || c == '\U{0085}' || c == '\U{00A0}' || c == '\U{1680}'
    || '\U{2000}' <= c <= '\U{200A}'
    || c == '\U{2028}' || c == '\U{2029}' || c == '\U{202F}' || c == '\U{205F}' || c == '\U{3000}'
  }

  /** The number of whitespace characters `s` starts with. */
  function LeadingBlanks(s: string): (n: nat)
    ensures n <= |s|
    ensures forall k :: 0 <= k < n ==> IsWhitespaceOrNewline(s[k])
    ensures n < |s| ==> !IsWhitespaceOrNewline(s[n])
    decreases |s|
  {
    if s != [] && IsWhitespaceOrNewline(s[0]) then 1 + LeadingBlanks(s[1..]) else 0
  }

  /** The number of whitespace characters `s` ends with. */
  function TrailingBlanks(s: string): (n: nat)
    ensures n <= |s|
    ensures forall k :: |s| - n <= k < |s| ==> IsWhitespaceOrNewline(s[k])
    ensures n < |s| ==> !IsWhitespaceOrNewline(s[|s| - n - 1])
    decreases |s|
  {
    if s != [] && IsWhitespaceOrNewline(s[|s| - 1]) then 1 + TrailingBlanks(s[..|s| - 1]) else 0
  }

  /** `s.trimmingCharacters(in: .whitespacesAndNewlines)`: the slice of `s`
      left once its leading and trailing whitespace are cut; the result
      neither starts nor ends with whitespace. */
  function Trim(s: string): (r: string)
    ensures |r| <= |s|
    ensures r != [] ==> !IsWhitespaceOrNewline(r[0]) && !IsWhitespaceOrNewline(r[|r| - 1])
    ensures var i := LeadingBlanks(s);
      i + |r| <= |s| && r == s[i..i + |r|] &&
      forall k :: i + |r| <= k < |s| ==> IsWhitespaceOrNewline(s[k])
  {
    var i := LeadingBlanks(s);
    var t := s[i..];
    var n := |t| - TrailingBlanks(t);
    var r := t[..n];
    TrimSlice(s, i, n);
    r
  }

  /** What `LeadingBlanks` and `TrailingBlanks` say about the slice that
      `Trim` keeps, read in `s`. */
  lemma TrimSlice(s: string, i: nat, n: nat)
    requires i == LeadingBlanks(s) && n == |s[i..]| - TrailingBlanks(s[i..])
    ensures i + n <= |s| && s[i..][..n] == s[i..i + n]
    ensures n > 0 ==> !IsWhitespaceOrNewline(s[i]) && !IsWhitespaceOrNewline(s[i + n - 1])
    ensures forall k :: i + n <= k < |s| ==> IsWhitespaceOrNewline(s[k])
  {
    var t := s[i..];
    if n > 0 {
      assert t[n - 1] == s[i + n - 1];
    }
    forall k | i + n <= k < |s| ensures IsWhitespaceOrNewline(s[k]) {
      assert s[k] == t[k - i];
    }
  }

  /** Trimming leaves nothing exactly when the string is blank. */
  lemma TrimEmpty(s: string)
    ensures Trim(s) == [] <==> forall k :: 0 <= k < |s| ==> IsWhitespaceOrNewline(s[k])
  {
  }

  /** Trimming a string that does not start or end with whitespace changes
      nothing. */
  lemma TrimUntouched(s: string)
    requires s != [] ==> !IsWhitespaceOrNewline(s[0]) && !IsWhitespaceOrNewline(s[|s| - 1])
    ensures Trim(s) == s
  {
  }

  /** `uppercased()` on ASCII letters. */
  function UpperAscii(c: char): (u: char)
    ensures 'a' <= c <= 'z' ==> u as int == c as int - 32
    ensures !('a' <= c <= 'z') ==> u == c
  {
    if 'a' <= c <= 'z' then (c as int - 32) as char else c
  }

  function Uppercased(s: string): (r: string)
    ensures |r| == |s| && forall k :: 0 <= k < |s| ==> r[k] == UpperAscii(s[k])
  {
    seq(|s|, k requires 0 <= k < |s| => UpperAscii(s[k]))
  }

  /** `s.replacingOccurrences(of: String(c), with: "")`. */
  function RemoveAll(s: string, c: char): (r: string)
    ensures |r| <= |s|
    ensures c !in r
    ensures forall x :: x != c ==> (x in r <==> x in s)
    ensures multiset(r) == multiset(s)[c := 0]
    decreases |s|
  {
    if s == [] then []
    else
      assert s == [s[0]] + s[1..];
      (if s[0] == c then [] else [s[0]]) + RemoveAll(s[1..], c)
  }

  /** Removing a character works piece by piece, so the characters kept
      stay in their order. */
  lemma {:induction false} RemoveAllConcat(a: string, b: string, c: char)
    ensures RemoveAll(a + b, c) == RemoveAll(a, c) + RemoveAll(b, c)
    decreases |a|
  {
    if a != [] {
      assert (a + b)[1..] == a[1..] + b;
      RemoveAllConcat(a[1..], b, c);
    } else {
      assert a + b == b;
    }
  }

  /** An occurrence of the character disappears and its two sides are joined. */
  lemma RemoveAllAround(a: string, b: string, c: char)
    ensures RemoveAll(a + [c] + b, c) == RemoveAll(a, c) + RemoveAll(b, c)
  {
    assert [c][1..] == [];
    assert RemoveAll([c], c) == [] + RemoveAll([], c) == [];
    RemoveAllConcat(a, [c], c);
    assert RemoveAll(a + [c], c) == RemoveAll(a, c);
    RemoveAllConcat(a + [c], b, c);
  }

  /** A text without the character is left as it is. */
  lemma {:induction false} RemoveAllAbsent(s: string, c: char)
    requires c !in s
    ensures RemoveAll(s, c) == s
    decreases |s|
  {
    if s != [] {
      RemoveAllAbsent(s[1..], c);
    }
  }

  /** The decimal digit for a value below ten. */
  function DigitChar(d: nat): (c: char)
    requires d < 10
  {
    ('0' as int + d) as char
  }

  predicate IsDigit(c: char) {
    '0' <= c <= '9'
  }

  /** `"\(n)"` for an unsigned integer: its decimal digits, most significant
      first, with no leading zero. */
  function Decimal(n: nat): (s: string)
    ensures |s| > 0 && forall k :: 0 <= k < |s| ==> IsDigit(s[k])
    ensures |s| > 1 ==> s[0] != '0'
    decreases n
  {
    if n < 10 then [DigitChar(n)] else Decimal(n / 10) + [DigitChar(n % 10)]
  }

  /** The value of a string of decimal digits. */
  function DecimalValue(s: string): (n: nat)
    requires forall k :: 0 <= k < |s| ==> IsDigit(s[k])
    decreases |s|
  {
    if s == [] then 0
    else
      assert IsDigit(s[|s| - 1]);
      var d: nat := s[|s| - 1] as int - '0' as int;
      DecimalValue(s[..|s| - 1]) * 10 + d
  }

  /** Reading back the decimal form gives the number. */
  lemma {:induction false} DecimalRoundTrip(n: nat)
    ensures DecimalValue(Decimal(n)) == n
    decreases n
  {
    if n >= 10 {
      DecimalRoundTrip(n / 10);
      var s := Decimal(n);
      assert s[..|s| - 1] == Decimal(n / 10);
    }
  }

  /** Different numbers print differently. */
  lemma DecimalInjective(m: nat, n: nat)
    requires Decimal(m) == Decimal(n)
    ensures m == n
  {
    DecimalRoundTrip(m);
    DecimalRoundTrip(n);
  }
}
