/** String operations of Rust's standard library that the core relies on:
    `char::is_whitespace` and `str::trim`, `str::contains`, the first piece of
    `str::split`, `[String]::join`, decimal formatting of an unsigned integer with
    `{}`, and the byte-wise (equivalently code-point-wise) ordering SQLite uses
    for text. Strings are sequences of Unicode scalar values. */
module Text {

  /** The Unicode White_Space property: what `char::is_whitespace`, hence
      `str::trim`, and the regular-expression class `\s` accept. */
  predicate IsWhitespace(c: char) {
    ('\t' <= c <= '\r') || c == ' ' || c == '\U{85}' || c == '\U{A0}' || c == '\U{1680}'
    || ('\U{2000}' <= c <= '\U{200A}') || c == '\U{2028}' || c == '\U{2029}'
    || c == '\U{202F}' || c == '\U{205F}' || c == '\U{3000}'
  }

  predicate AllWhitespace(s: string) {
    forall k :: 0 <= k < |s| ==> IsWhitespace(s[k])
  }

  /** Neither end of `s` is whitespace. */
  predicate IsTrimmed(s: string) {
    s == [] || (!IsWhitespace(s[0]) && !IsWhitespace(s[|s| - 1]))
  }

  /** `str::trim`: drops the longest whitespace prefix and the longest
      whitespace suffix, one character at a time. */
  function Trim(s: string): (r: string)
    ensures IsTrimmed(r) && |r| <= |s|
    decreases |s|
  {
    if s != [] && IsWhitespace(s[0]) then Trim(s[1..])
    else if s != [] && IsWhitespace(s[|s| - 1]) then Trim(s[..|s| - 1])
    else s
  }

  /** What trimming leaves is the text with only whitespace cut from either
      end. */
  lemma {:induction false} TrimSplits(s: string)
    ensures exists a, b :: AllWhitespace(a) && AllWhitespace(b) && s == a + Trim(s) + b
    decreases |s|
  {
    if s != [] && IsWhitespace(s[0]) {
      var t := Trim(s[1..]);
      assert Trim(s) == t;
      TrimSplits(s[1..]);
      var a, b :| AllWhitespace(a) && AllWhitespace(b) && s[1..] == a + t + b;
      PadFront(s, a, t, b);
    } else if s != [] && IsWhitespace(s[|s| - 1]) {
      var t := Trim(s[..|s| - 1]);
      assert Trim(s) == t;
      TrimSplits(s[..|s| - 1]);
      var a, b :| AllWhitespace(a) && AllWhitespace(b) && s[..|s| - 1] == a + t + b;
      PadBack(s, a, t, b);
    } else {
      var e: string := [];
      assert Trim(s) == s;
      assert AllWhitespace(e) && s == e + Trim(s) + e;
    }
  }

  /** One more whitespace character in front of a padded text. */
  lemma PadFront(s: string, a: string, m: string, b: string)
    requires s != [] && IsWhitespace(s[0])
    requires AllWhitespace(a) && AllWhitespace(b) && s[1..] == a + m + b
    ensures AllWhitespace([s[0]] + a) && s == ([s[0]] + a) + m + b
  {
    var a' := [s[0]] + a;
    forall k | 0 <= k < |a'| ensures IsWhitespace(a'[k]) {
      if k > 0 { assert a'[k] == a[k - 1]; }
    }
    assert s == [s[0]] + s[1..];
  }

  /** One more whitespace character behind a padded text. */
  lemma PadBack(s: string, a: string, m: string, b: string)
    requires s != [] && IsWhitespace(s[|s| - 1])
    requires AllWhitespace(a) && AllWhitespace(b) && s[..|s| - 1] == a + m + b
    ensures AllWhitespace(b + [s[|s| - 1]]) && s == a + m + (b + [s[|s| - 1]])
  {
    var b' := b + [s[|s| - 1]];
    forall k | 0 <= k < |b'| ensures IsWhitespace(b'[k]) {
      if k < |b| { assert b'[k] == b[k]; }
    }
    assert s == s[..|s| - 1] + [s[|s| - 1]];
  }

  lemma AllWhitespaceTail(a: string)
    requires a != [] && AllWhitespace(a)
    ensures AllWhitespace(a[1..])
  {
    forall k | 0 <= k < |a[1..]| ensures IsWhitespace(a[1..][k]) { assert a[1..][k] == a[k + 1]; }
  }

  /** Trimming skips a whitespace prefix. */
  lemma {:induction false} TrimSkipsFront(a: string, x: string)
    requires AllWhitespace(a)
    ensures Trim(a + x) == Trim(x)
    decreases |a|
  {
    if a != [] {
      assert (a + x)[0] == a[0];
      assert (a + x)[1..] == a[1..] + x;
      AllWhitespaceTail(a);
      TrimSkipsFront(a[1..], x);
    } else {
      assert a + x == x;
    }
  }

  /** Trimmed text followed by whitespace trims to itself. */
  lemma {:induction false} TrimSkipsBack(m: string, b: string)
    requires IsTrimmed(m) && AllWhitespace(b)
    ensures Trim(m + b) == m
    decreases |b|
  {
    if m == [] {
      assert m + b == b;
      TrimAllWhitespace(b);
    } else if b != [] {
      var s := m + b;
      assert s[0] == m[0] && s[|s| - 1] == b[|b| - 1];
      assert s[..|s| - 1] == m + b[..|b| - 1];
      var b' := b[..|b| - 1];
      assert AllWhitespace(b') by {
        forall k | 0 <= k < |b'| ensures IsWhitespace(b'[k]) { assert b'[k] == b[k]; }
      }
      TrimSkipsBack(m, b');
    } else {
      assert m + b == m;
    }
  }

  /** Whitespace-only text trims to nothing. */
  lemma {:induction false} TrimAllWhitespace(s: string)
    requires AllWhitespace(s)
    ensures Trim(s) == []
    decreases |s|
  {
    if s != [] {
      AllWhitespaceTail(s);
      TrimAllWhitespace(s[1..]);
    }
  }

  /** `Trim` is characterised by its result alone: whatever trimmed text is
      padded with whitespace on both sides, trimming gives it back. */
  lemma TrimPadded(a: string, m: string, b: string)
    requires AllWhitespace(a) && AllWhitespace(b) && IsTrimmed(m)
    ensures Trim(a + m + b) == m
  {
    assert a + m + b == a + (m + b);
    TrimSkipsFront(a, m + b);
    TrimSkipsBack(m, b);
  }

  /** Text without whitespace is its own trim. */
  lemma TrimUnpadded(s: string)
    requires forall m :: 0 <= m < |s| ==> !IsWhitespace(s[m])
    ensures Trim(s) == s
  {
    TrimPadded([], s, []);
    assert [] + s + [] == s;
  }

  /** Only whitespace-only text trims to nothing. */
  lemma {:induction false} TrimEmptyIsWhitespace(s: string)
    requires Trim(s) == []
    ensures AllWhitespace(s)
    decreases |s|
  {
    if s != [] && IsWhitespace(s[0]) {
      TrimEmptyIsWhitespace(s[1..]);
      forall k | 0 <= k < |s| ensures IsWhitespace(s[k]) {
        if k > 0 { assert s[k] == s[1..][k - 1]; }
      }
    } else if s != [] && IsWhitespace(s[|s| - 1]) {
      TrimEmptyIsWhitespace(s[..|s| - 1]);
      forall k | 0 <= k < |s| ensures IsWhitespace(s[k]) {
        if k < |s| - 1 { assert s[k] == s[..|s| - 1][k]; }
      }
    }
  }

  /** Trimming yields nothing exactly when the text is all whitespace. */
  lemma TrimEmptyIff(s: string)
    ensures Trim(s) == [] <==> AllWhitespace(s)
  {
    if AllWhitespace(s) {
      TrimAllWhitespace(s);
    }
    if Trim(s) == [] {
      TrimEmptyIsWhitespace(s);
    }
  }

  /** `pat` occurs in `s` starting at index `i`. */
  predicate OccursAt(pat: string, s: string, i: nat) {
    i + |pat| <= |s| && s[i..i + |pat|] == pat
  }

  /** `str::contains` with a string pattern: a naive left-to-right scan. */
  function Contains(s: string, pat: string): (b: bool)
    ensures b <==> exists i: nat :: OccursAt(pat, s, i)
    decreases |s|
  {
    if |pat| > |s| then
      false
    else if s[..|pat|] == pat then
      assert OccursAt(pat, s, 0);
      true
    else
      var b := Contains(s[1..], pat);
      assert forall i: nat :: OccursAt(pat, s[1..], i) <==> OccursAt(pat, s, i + 1) by {
        forall i: nat ensures OccursAt(pat, s[1..], i) <==> OccursAt(pat, s, i + 1) {
          if i + |pat| <= |s[1..]| {
            assert s[1..][i..i + |pat|] == s[i + 1..i + 1 + |pat|];
          }
        }
      }
      assert !OccursAt(pat, s, 0);
      assert (exists i: nat :: OccursAt(pat, s, i)) ==> exists i: nat :: OccursAt(pat, s[1..], i) by {
        if exists i: nat :: OccursAt(pat, s, i) {
          var i: nat :| OccursAt(pat, s, i);
          assert i > 0;
          assert OccursAt(pat, s[1..], i - 1);
        }
      }
      b
  }

  /** Index of the first `c` in `s`, or `|s|` when there is none. */
  function IndexOf(s: string, c: char): (k: nat)
    ensures k <= |s|
    ensures k < |s| ==> s[k] == c
  {
    if s == [] then 0
    else if s[0] == c then 0
    else 1 + IndexOf(s[1..], c)
  }

  /** No `c` comes before the index `IndexOf` reports. */
  lemma {:induction false} IndexOfIsFirst(s: string, c: char)
    ensures forall j :: 0 <= j < IndexOf(s, c) ==> s[j] != c
  {
    if s != [] && s[0] != c {
      IndexOfIsFirst(s[1..], c);
    }
  }

  /** The first piece of `s.split(c)`: everything before the first `c`. */
  function FirstSplit(s: string, c: char): string {
    s[..IndexOf(s, c)]
  }

  /** The first piece holds no `c`, and it is either the whole text or is
      followed by a `c`. */
  lemma FirstSplitProperties(s: string, c: char)
    ensures c !in FirstSplit(s, c)
    ensures var r := FirstSplit(s, c); r == s || (|r| < |s| && s[..|r| + 1] == r + [c])
  {
    var k := IndexOf(s, c);
    IndexOfIsFirst(s, c);
    assert k < |s| ==> s[..k + 1] == s[..k] + [c];
    assert k == |s| ==> s[..k] == s;
  }

  /** The first piece is everything before the first occurrence of `c`. */
  lemma FirstSplitAt(s: string, c: char, k: nat)
    requires k < |s| && s[k] == c
    requires forall j :: 0 <= j < k ==> s[j] != c
    ensures FirstSplit(s, c) == s[..k]
  {
    IndexOfIsFirst(s, c);
    assert IndexOf(s, c) <= k;
  }

  /** `[String]::join(sep)`. */
  function Join(parts: seq<string>, sep: string): string
    decreases |parts|
  {
    if parts == [] then ""
    else if |parts| == 1 then parts[0]
    else parts[0] + sep + Join(parts[1..], sep)
  }

  /** With a whitespace separator, the joined text is all whitespace exactly
      when every part is. */
  lemma {:induction false} JoinAllWhitespace(parts: seq<string>, sep: string)
    requires AllWhitespace(sep)
    ensures AllWhitespace(Join(parts, sep)) <==> forall k :: 0 <= k < |parts| ==> AllWhitespace(parts[k])
    decreases |parts|
  {
    if |parts| > 1 {
      JoinAllWhitespace(parts[1..], sep);
      var rest := Join(parts[1..], sep);
      var all := parts[0] + sep + rest;
      if AllWhitespace(all) {
        assert AllWhitespace(parts[0]) by {
          forall k | 0 <= k < |parts[0]| ensures IsWhitespace(parts[0][k]) { assert all[k] == parts[0][k]; }
        }
        assert AllWhitespace(rest) by {
          forall k | 0 <= k < |rest| ensures IsWhitespace(rest[k]) {
            assert all[|parts[0]| + |sep| + k] == rest[k];
          }
        }
        forall k | 0 <= k < |parts| ensures AllWhitespace(parts[k]) {
          if k > 0 { assert parts[k] == parts[1..][k - 1]; }
        }
      } else {
        assert !AllWhitespace(parts[0]) || !AllWhitespace(rest);
        if AllWhitespace(parts[0]) {
          var k :| 0 <= k < |parts[1..]| && !AllWhitespace(parts[1..][k]);
          assert parts[k + 1] == parts[1..][k];
        }
      }
    }
  }

  predicate IsDigit(c: char) {
    '0' <= c <= '9'
  }

  predicate AllDigits(s: string) {
    forall k :: 0 <= k < |s| ==> IsDigit(s[k])
  }

  function DigitChar(d: nat): (c: char)
    requires d < 10
    ensures IsDigit(c)
  {
    (('0' as int) + d) as char
  }

  function DigitValue(c: char): (d: nat)
    requires IsDigit(c)
    ensures d < 10
  {
    (c as int) - ('0' as int)
  }

  /** Decimal rendering of a `usize` by `{}`: digits only, no leading zero. */
  function NatToString(n: nat): (r: string)
    ensures |r| >= 1 && AllDigits(r)
    ensures r[0] == '0' ==> n == 0
  {
    if n < 10 then [DigitChar(n)]
    else NatToString(n / 10) + [DigitChar(n % 10)]
  }

  /** The value of a string of decimal digits. */
  function DecimalValue(s: string): nat
    requires AllDigits(s)
  {
    if s == [] then 0 else 10 * DecimalValue(s[..|s| - 1]) + DigitValue(s[|s| - 1])
  }

  /** Reading back a rendered number gives the number. */
  lemma {:induction false} DecimalRoundTrip(n: nat)
    ensures DecimalValue(NatToString(n)) == n
  {
    if n >= 10 {
      var r := NatToString(n);
      assert r[..|r| - 1] == NatToString(n / 10);
      DecimalRoundTrip(n / 10);
    }
  }

  lemma NatToStringInjective(m: nat, n: nat)
    requires NatToString(m) == NatToString(n)
    ensures m == n
  {
    DecimalRoundTrip(m);
    DecimalRoundTrip(n);
  }

  /** Strict lexicographic order by code point, which for UTF-8 text is the
      byte order of SQLite's BINARY collation: a proper prefix sorts first. */
  predicate LexLess(a: string, b: string)
    decreases |a|
  {
    if a == [] then b != []
    else if b == [] then false
    else if a[0] != b[0] then a[0] < b[0]
    else LexLess(a[1..], b[1..])
  }

  lemma {:induction false} LexLessIrreflexive(a: string)
    ensures !LexLess(a, a)
    decreases |a|
  {
    if a != [] { LexLessIrreflexive(a[1..]); }
  }

  lemma {:induction false} LexLessTransitive(a: string, b: string, c: string)
    requires LexLess(a, b) && LexLess(b, c)
    ensures LexLess(a, c)
    decreases |a|
  {
    if a != [] && b != [] && c != [] && a[0] == b[0] && b[0] == c[0] {
      LexLessTransitive(a[1..], b[1..], c[1..]);
    }
  }

  lemma {:induction false} LexLessTotal(a: string, b: string)
    requires a != b
    ensures LexLess(a, b) || LexLess(b, a)
    decreases |a|
  {
    if a != [] && b != [] && a[0] == b[0] {
      assert a == [a[0]] + a[1..] && b == [b[0]] + b[1..];
      LexLessTotal(a[1..], b[1..]);
    }
  }

  lemma {:induction false} LexLessAsymmetric(a: string, b: string)
    requires LexLess(a, b)
    ensures !LexLess(b, a)
    decreases |a|
  {
    if a != [] && b != [] && a[0] == b[0] {
      LexLessAsymmetric(a[1..], b[1..]);
    }
  }

  /** "Not less than" is transitive too. */
  lemma LexNotLessTransitive(a: string, b: string, c: string)
    requires !LexLess(a, b) && !LexLess(b, c)
    ensures !LexLess(a, c)
  {
    if LexLess(a, c) {
      if a == b {
        assert false;
      } else {
        LexLessTotal(a, b);
        if b == c {
          assert false;
        } else {
          LexLessTotal(b, c);
          LexLessTransitive(c, b, a);
          LexLessAsymmetric(a, c);
          assert false;
        }
      }
    }
  }
}
