/**
 * The few pieces of Python's `str` behaviour the application relies on:
 * `str.strip()`, `str.lower().endswith(...)`, `os.path.splitext(...)[0]`,
 * `',' in s` and `s.split(',', 1)`.  Strings are sequences of Unicode scalar
 * values, as Python's are.
 */
module Text {
  import opened Wrappers

  /** `c.isspace()`: exactly the characters that `str.strip()` with no argument removes. */
  predicate IsSpace(c: char)
  {
    || c == ' '
    || ('\t' <= c <= '\r')
    || ('\U{1C}' <= c <= '\U{1F}')
    || c == '\U{85}' || c == '\U{A0}' || c == '\U{1680}'
    || ('\U{2000}' <= c <= '\U{200A}')
    || c == '\U{2028}' || c == '\U{2029}' || c == '\U{202F}' || c == '\U{205F}' || c == '\U{3000}'
  }

  /** No string occurs twice in `s`. */
  predicate Distinct(s: seq<string>)
  {
    forall i, j :: 0 <= i < j < |s| ==> s[i] != s[j]
  }

  /** A string that `strip()` leaves as it is. */
  predicate IsStripped(s: string)
  {
    s == [] || (!IsSpace(s[0]) && !IsSpace(s[|s| - 1]))
  }

  /** `s.lstrip()`: the suffix of `s` left after dropping leading whitespace. */
  function TrimLeft(s: string): (r: string)
    ensures |r| <= |s| && r == s[|s| - |r|..]
    ensures forall i :: 0 <= i < |s| - |r| ==> IsSpace(s[i])
    ensures r == [] || !IsSpace(r[0])
  {
    if s != [] && IsSpace(s[0]) then TrimLeft(s[1..]) else s
  }

  /** `s.rstrip()`: the prefix of `s` left after dropping trailing whitespace. */
  function TrimRight(s: string): (r: string)
    ensures |r| <= |s| && r == s[..|r|]
    ensures forall i :: |r| <= i < |s| ==> IsSpace(s[i])
    ensures r == [] || !IsSpace(r[|r| - 1])
  {
    if s != [] && IsSpace(s[|s| - 1]) then TrimRight(s[..|s| - 1]) else s
  }

  /** `r` is the slice of `s` at `i`, with only whitespace before and after it. */
  predicate StripsTo(s: string, i: int, r: string)
  {
    && 0 <= i && i + |r| <= |s| && r == s[i..i + |r|]
    && (forall k :: 0 <= k < i ==> IsSpace(s[k]))
    && (forall k :: i + |r| <= k < |s| ==> IsSpace(s[k]))
  }

  /** `s.strip()`. */
  function Strip(s: string): (r: string)
    ensures IsStripped(r) && |r| <= |s|
    ensures IsStripped(s) ==> r == s
    ensures r == [] <==> forall i :: 0 <= i < |s| ==> IsSpace(s[i])
    ensures forall c :: c in r ==> c in s
  {
    var l := TrimLeft(s);
    var r := TrimRight(l);
    assert forall c :: c in l ==> c in s;
    assert r != [] ==> r[0] == l[0];
    assert l == [] ==> forall i :: 0 <= i < |s| ==> IsSpace(s[i]);
    assert r == [] ==> l == [];
    assert IsStripped(s) ==> l == s;
    r
  }

  /** `strip()` keeps the one slice of `s` that has only whitespace around it. */
  lemma StripIsMiddleSlice(s: string)
    ensures exists i :: StripsTo(s, i, Strip(s))
  {
    var l := TrimLeft(s);
    assert Strip(s) == TrimRight(l);
    assert StripsTo(s, |s| - |l|, Strip(s));
  }

  /** Stripping ignores one leading space: `(" " + s).strip() == s.strip()`. */
  lemma {:induction false} StripLeadingSpace(s: string)
    ensures Strip(" " + s) == Strip(s)
  {
    assert (" " + s)[1..] == s;
  }

  /** ASCII upper case to lower case, every other character unchanged. */
  function AsciiLower(c: char): (r: char)
    ensures !('A' <= r <= 'Z')
    ensures ('a' <= r <= 'z') <==> ('a' <= c <= 'z' || 'A' <= c <= 'Z')
  {
    if 'A' <= c <= 'Z' then (c as int + 32) as char else c
  }

  /** Two characters fold to the same one exactly when they are equal or are one ASCII letter in its two cases. */
  lemma AsciiLowerSameLetter(c: char, d: char)
    ensures AsciiLower(c) == AsciiLower(d) <==>
              c == d || ('a' <= c <= 'z' && d as int == c as int - 32) || ('a' <= d <= 'z' && c as int == d as int - 32)
  {
  }

  /**
   * `s.lower().endswith(suffix)` for a suffix of lower-case ASCII letters and
   * dots.  No character outside ASCII lower-cases to such a character, so
   * folding ASCII letters alone decides the test exactly.
   */
  predicate EndsWithFolded(s: string, suffix: string)
  {
    |suffix| <= |s| && forall i :: 0 <= i < |suffix| ==> AsciiLower(s[|s| - |suffix| + i]) == suffix[i]
  }

  /** `s.find(c)`: the first position of `c`, or nothing. */
  function IndexOf(s: string, c: char): (r: Option<nat>)
    ensures r.None? <==> c !in s
    ensures r.Some? ==> r.value < |s| && s[r.value] == c && c !in s[..r.value]
    ensures r.Some? ==> forall k :: 0 <= k < r.value ==> s[k] != c
  {
    if s == [] then None
    else if s[0] == c then Some(0)
    else match IndexOf(s[1..], c)
      case None => None
      case Some(i) =>
        assert s[1..][..i] == s[1..i + 1];
        Some(i + 1)
  }

  /** `s.rfind(c)`: the last position of `c`, or nothing. */
  function LastIndexOf(s: string, c: char): (r: Option<nat>)
    ensures r.None? <==> c !in s
    ensures r.Some? ==> r.value < |s| && s[r.value] == c && c !in s[r.value + 1..]
  {
    if s == [] then None
    else if s[|s| - 1] == c then Some(|s| - 1)
    else
      var r := LastIndexOf(s[..|s| - 1], c);
      assert s == s[..|s| - 1] + [s[|s| - 1]];
      assert r.Some? ==> s[r.value + 1..] == s[..|s| - 1][r.value + 1..] + [s[|s| - 1]];
      r
  }

  /** Some character of `s` before position `n` is not a dot. */
  predicate HasNonDotBefore(s: string, n: nat)
    requires n <= |s|
  {
    exists k :: 0 <= k < n && s[k] != '.'
  }

  /**
   * `os.path.splitext(f)[0]` for a bare file name (no directory part): the
   * name without the text from its last dot on, unless everything before that
   * dot is dots (`".png"` has no extension and is its own stem).
   */
  function Stem(f: string): (r: string)
    ensures |r| <= |f| && r == f[..|r|]
    ensures r != f ==> f[|r|] == '.' && '.' !in f[|r| + 1..] && HasNonDotBefore(f, |r|)
    ensures r == f ==> match LastIndexOf(f, '.')
                       case None => true
                       case Some(i) => !HasNonDotBefore(f, i)
  {
    match LastIndexOf(f, '.')
    case None => f
    case Some(i) => if HasNonDotBefore(f, i) then f[..i] else f
  }

  /** A stem keeps every character that stands before the extension's dot. */
  lemma StemKeepsBeforeDot(f: string, j: nat, k: nat)
    requires j < k < |f| && f[k] == '.'
    ensures j < |Stem(f)| && Stem(f)[j] == f[j]
  {
  }

  /** `Stem(base + "." + ext)` is `base` when `ext` has no dot and `base` is not all dots. */
  lemma StemOfDotted(base: string, ext: string)
    requires '.' !in ext
    requires HasNonDotBefore(base, |base|)
    ensures Stem(base + "." + ext) == base
  {
    var f := base + "." + ext;
    assert f[|base|] == '.';
    assert f[|base| + 1..] == ext;
    var r := Stem(f);
    assert HasNonDotBefore(f, |base|) by {
      var k :| 0 <= k < |base| && base[k] != '.';
      assert f[k] == base[k];
    }
    assert f[..|base|] == base;
  }

  /**
   * Python's `a < b` on strings: code point by code point, and a proper
   * prefix comes first.
   */
  predicate Less(a: string, b: string)
  {
    if a == [] then b != []
    else if b == [] then false
    else a[0] < b[0] || (a[0] == b[0] && Less(a[1..], b[1..]))
  }

  lemma {:induction false} LessIrreflexive(a: string)
    ensures !Less(a, a)
  {
    if a != [] {
      LessIrreflexive(a[1..]);
    }
  }

  /** Any two different strings are ordered one way, and never both ways. */
  lemma {:induction false} LessTotal(a: string, b: string)
    ensures a != b <==> Less(a, b) || Less(b, a)
    ensures !(Less(a, b) && Less(b, a))
  {
    if a == [] || b == [] {
    } else if a[0] == b[0] {
      LessTotal(a[1..], b[1..]);
      assert a == [a[0]] + a[1..] && b == [b[0]] + b[1..];
    }
  }

  lemma {:induction false} LessTransitive(a: string, b: string, c: string)
    requires Less(a, b) && Less(b, c)
    ensures Less(a, c)
  {
    if a != [] && a[0] == b[0] && b[0] == c[0] {
      LessTransitive(a[1..], b[1..], c[1..]);
    }
  }
}
