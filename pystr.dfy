/** The Python `str` operations the plugin runtime relies on, over `string`.
    Case mapping and `isalpha` follow ASCII; `repr` escapes as CPython does for
    characters up to U+00FF and keeps every other character as it is. */
module PyStr {

  /** `s.startswith(p)` */
  predicate StartsWith(s: string, p: string) {
    |p| <= |s| && s[..|p|] == p
  }

  /** `s.endswith(p)` */
  predicate EndsWith(s: string, p: string) {
    |p| <= |s| && s[|s| - |p|..] == p
  }

  /** p occurs in s starting at index i */
  predicate OccursAt(s: string, p: string, i: int) {
    0 <= i <= |s| - |p| && s[i..i + |p|] == p
  }

  /** `p in s`: p occurs in s as a contiguous substring */
  predicate Contains(s: string, p: string)
    decreases |s|
  {
    StartsWith(s, p) || (s != [] && Contains(s[1..], p))
  }

  /** Contains means occurring at some index. */
  lemma {:induction false} ContainsAt(s: string, p: string, i: int)
    requires OccursAt(s, p, i)
    ensures Contains(s, p)
    decreases i
  {
    if i > 0 {
      assert s[1..][i - 1..i - 1 + |p|] == s[i..i + |p|];
      ContainsAt(s[1..], p, i - 1);
    }
  }

  lemma {:induction false} ContainsIndex(s: string, p: string) returns (i: int)
    requires Contains(s, p)
    ensures OccursAt(s, p, i)
    decreases |s|
  {
    if StartsWith(s, p) {
      i := 0;
    } else {
      var j := ContainsIndex(s[1..], p);
      assert s[1..][j..j + |p|] == s[j + 1..j + 1 + |p|];
      i := j + 1;
    }
  }

  lemma ContainsExtend(a: string, b: string, p: string)
    requires Contains(a, p)
    ensures Contains(a + b, p)
  {
    var i := ContainsIndex(a, p);
    assert (a + b)[i..i + |p|] == a[i..i + |p|];
    ContainsAt(a + b, p, i);
  }

  /** `s.split('.')[-1]`: the longest suffix of s without a dot */
  function LastSegment(s: string): string {
    if s == [] then []
    else if s[|s| - 1] == '.' then []
    else LastSegment(s[..|s| - 1]) + [s[|s| - 1]]
  }

  /** The last segment is a dot-free suffix, preceded by a dot unless it is
      the whole string. */
  lemma {:induction false} LastSegmentShape(s: string)
    ensures EndsWith(s, LastSegment(s))
    ensures '.' !in LastSegment(s)
    ensures |LastSegment(s)| < |s| ==> s[|s| - |LastSegment(s)| - 1] == '.'
  {
    if s != [] && s[|s| - 1] != '.' {
      var t, c := s[..|s| - 1], s[|s| - 1];
      var r := LastSegment(t);
      LastSegmentShape(t);
      assert LastSegment(s) == r + [c];
      assert s[|s| - |r| - 1..] == t[|t| - |r|..] + [c];
      assert |r| < |t| ==> s[|s| - |r| - 2] == t[|t| - |r| - 1];
    }
  }

  /** A string without a dot is its own last segment. */
  lemma {:induction false} LastSegmentOfDotFree(s: string)
    requires '.' !in s
    ensures LastSegment(s) == s
    decreases |s|
  {
    if s != [] {
      var init := s[..|s| - 1];
      assert s == init + [s[|s| - 1]];
      assert '.' !in init;
      LastSegmentOfDotFree(init);
    }
  }

  predicate IsLetter(c: char) {
    'a' <= c <= 'z' || 'A' <= c <= 'Z'
  }

  /** `s.isalpha()`: non-empty and made of letters only */
  predicate IsAlpha(s: string) {
    |s| > 0 && forall i :: 0 <= i < |s| ==> IsLetter(s[i])
  }

  predicate IsLower(c: char) { 'a' <= c <= 'z' }

  predicate IsUpper(c: char) { 'A' <= c <= 'Z' }

  function UpperChar(c: char): char {
    if IsLower(c) then (c as int - 32) as char else c
  }

  function LowerChar(c: char): char {
    if IsUpper(c) then (c as int + 32) as char else c
  }

  function Lower(s: string): (r: string)
    ensures |r| == |s|
  {
    seq(|s|, i requires 0 <= i < |s| => LowerChar(s[i]))
  }

  /** `s.capitalize()`: the first character upper-cased, the rest lower-cased */
  function Capitalize(s: string): (r: string)
    ensures |r| == |s|
  {
    if s == [] then [] else [UpperChar(s[0])] + Lower(s[1..])
  }

  /** After capitalizing, no letter but the first is upper-case, the first is not
      lower-case, every letter keeps its place up to case, and capitalizing
      again changes nothing. */
  lemma CapitalizeShape(s: string)
    ensures |s| > 0 ==> !IsLower(Capitalize(s)[0])
    ensures forall i :: 0 < i < |s| ==> !IsUpper(Capitalize(s)[i])
    ensures forall i :: 0 <= i < |s| ==> LowerChar(Capitalize(s)[i]) == LowerChar(s[i])
    ensures Capitalize(Capitalize(s)) == Capitalize(s)
  {
    if s != [] {
      var c := Capitalize(s);
      assert c[1..] == Lower(s[1..]);
      assert Lower(c[1..]) == c[1..];
    }
  }

  /** `s * k` for an int k: k copies of s, and the empty string when k <= 0 */
  function Repeat(s: string, k: int): (r: string)
    ensures k <= 0 ==> r == []
    ensures k > 0 ==> |r| == |s| * k
    decreases if k < 0 then 0 else k
  {
    if k <= 0 then [] else s + Repeat(s, k - 1)
  }

  /** `repr(n)` for an int: its decimal digits, with a leading '-' when negative */
  function Decimal(n: int): (r: string)
    ensures |r| > 0
    decreases if n < 0 then -n + 1 else n
  {
    if n < 0 then "-" + Decimal(-n)
    else if n < 10 then [('0' as int + n) as char]
    else Decimal(n / 10) + [('0' as int + n % 10) as char]
  }

  function HexDigit(d: int): char
    requires 0 <= d < 16
  {
    if d < 10 then ('0' as int + d) as char else ('a' as int + d - 10) as char
  }

  /** Characters that `repr` writes as `\xNN`: the C0 controls without a short
      escape, DEL, the C1 controls, the no-break space and the soft hyphen. */
  predicate NeedsHexEscape(c: char) {
    c as int < 0x20 || (0x7f <= c as int <= 0xa0) || c as int == 0xad
  }

  /** How `repr` writes one character inside a literal quoted with q */
  function EscapeChar(c: char, q: char): string {
    if c == q || c == '\\' then ['\\', c]
    else if c == '\t' then "\\t"
    else if c == '\n' then "\\n"
    else if c == '\r' then "\\r"
    else if NeedsHexEscape(c) then ['\\', 'x', HexDigit(c as int / 16), HexDigit(c as int % 16)]
    else [c]
  }

  function Escape(s: string, q: char): string {
    if s == [] then [] else EscapeChar(s[0], q) + Escape(s[1..], q)
  }

  /** A character that `repr` copies unchanged inside a literal quoted with q */
  predicate Plain(c: char, q: char) {
    c != q && c != '\\' && !NeedsHexEscape(c)
  }

  predicate AllPlain(s: string, q: char) {
    forall i :: 0 <= i < |s| ==> Plain(s[i], q)
  }

  lemma {:induction false} EscapeConcat(a: string, b: string, q: char)
    ensures Escape(a + b, q) == Escape(a, q) + Escape(b, q)
  {
    if a == [] {
      assert a + b == b;
    } else {
      assert (a + b)[1..] == a[1..] + b;
      EscapeConcat(a[1..], b, q);
    }
  }

  lemma {:induction false} EscapePlain(s: string, q: char)
    requires AllPlain(s, q)
    ensures Escape(s, q) == s
  {
    if s != [] {
      assert Plain(s[0], q);
      EscapePlain(s[1..], q);
    }
  }

  /** The quote `repr` chooses: a double quote only when s holds a single quote
      and no double quote */
  function QuoteFor(s: string): char {
    if '\'' in s && '"' !in s then '"' else '\''
  }

  /** `repr(s)` for a str */
  function Repr(s: string): (r: string)
    ensures |r| >= 2 && r[0] == r[|r| - 1] == QuoteFor(s)
  {
    [QuoteFor(s)] + Escape(s, QuoteFor(s)) + [QuoteFor(s)]
  }
}
