/**
  The Python string operations both handlers rely on, written out over
  `seq<char>`: `lower`, `endswith`, `split`, `join`, `strip`, `replace` with an
  empty replacement, `os.path.basename`, the stem half of `os.path.splitext`,
  and the decimal numeral an f-string prints for a non-negative integer.
*/
module Strings {

  // ---------------------------------------------------------------------------
  // Decimal numerals
  // ---------------------------------------------------------------------------

  predicate IsDigit(c: char) { '0' <= c <= '9' }

  predicate AllDigits(s: string) { forall i :: 0 <= i < |s| ==> IsDigit(s[i]) }

  function DigitChar(d: nat): (c: char)
    requires d < 10
    ensures IsDigit(c) && c as int - '0' as int == d
  {
    ('0' as int + d) as char
  }

  function DigitValue(c: char): (d: nat)
    requires IsDigit(c)
    ensures d < 10
  {
    c as int - '0' as int
  }

  /** What `f"{n}"` prints for a non-negative integer `n`. */
  function NatToString(n: nat): (s: string)
    ensures |s| > 0 && AllDigits(s)
    ensures n >= 10 ==> s[0] != '0'
    decreases n
  {
    if n < 10 then [DigitChar(n)] else NatToString(n / 10) + [DigitChar(n % 10)]
  }

  /** The number a string of decimal digits denotes. */
  function DigitsValue(s: string): nat
    requires AllDigits(s)
    decreases |s|
  {
    if |s| == 0 then 0 else DigitsValue(s[..|s| - 1]) * 10 + DigitValue(s[|s| - 1])
  }

  /** Reading back a numeral gives the number it was printed from. */
  lemma {:induction false} NatToStringRoundTrip(n: nat)
    ensures DigitsValue(NatToString(n)) == n
    decreases n
  {
    var s := NatToString(n);
    if n >= 10 {
      NatToStringRoundTrip(n / 10);
      assert s[..|s| - 1] == NatToString(n / 10);
    }
  }

  /** Distinct numbers print as distinct numerals. */
  lemma {:induction false} NatToStringInjective(m: nat, n: nat)
    ensures NatToString(m) == NatToString(n) <==> m == n
  {
    NatToStringRoundTrip(m);
    NatToStringRoundTrip(n);
  }

  /** The length of the run of digits at the front of `s`. */
  function DigitRunLength(s: string): nat
    decreases |s|
  {
    if |s| == 0 || !IsDigit(s[0]) then 0 else 1 + DigitRunLength(s[1..])
  }

  lemma {:induction false} DigitRunLengthOf(d: string, t: string)
    requires AllDigits(d)
    requires |t| > 0 && !IsDigit(t[0])
    ensures DigitRunLength(d + t) == |d|
    decreases |d|
  {
    if |d| > 0 {
      assert (d + t)[1..] == d[1..] + t;
      DigitRunLengthOf(d[1..], t);
    }
  }

  /**
    A run of digits followed by a non-digit is recovered unambiguously: if two
    strings of the form digits + (non-digit + rest) are equal, so are their
    digit runs and their rests.
  */
  lemma {:induction false} DigitRunsAgree(d1: string, t1: string, d2: string, t2: string)
    requires AllDigits(d1) && AllDigits(d2)
    requires |t1| > 0 && !IsDigit(t1[0]) && |t2| > 0 && !IsDigit(t2[0])
    requires d1 + t1 == d2 + t2
    ensures d1 == d2 && t1 == t2
  {
    var s := d1 + t1;
    DigitRunLengthOf(d1, t1);
    DigitRunLengthOf(d2, t2);
    assert d1 == s[..|d1|] == d2;
    assert t1 == s[|d1|..] == t2;
  }

  // ---------------------------------------------------------------------------
  // Case, suffixes and search
  // ---------------------------------------------------------------------------

  /** `str.lower` on one character, for the ASCII letters. */
  function LowerChar(c: char): char
  {
    if 'A' <= c <= 'Z' then (c as int + 32) as char else c
  }

  function Lower(s: string): (r: string)
    ensures |r| == |s|
    ensures forall i :: 0 <= i < |s| ==> r[i] == LowerChar(s[i])
  {
    seq(|s|, i requires 0 <= i < |s| => LowerChar(s[i]))
  }

  /** `s.endswith(suffix)`. */
  predicate EndsWith(s: string, suffix: string)
  {
    |suffix| <= |s| && s[|s| - |suffix|..] == suffix
  }

  /** The first position of `c` in `s` (`str.index`). */
  function IndexOf(s: string, c: char): (r: nat)
    requires c in s
    ensures r < |s| && s[r] == c
    decreases |s|
  {
    if s[0] == c then 0 else 1 + IndexOf(s[1..], c)
  }

  /** No `c` comes before the position `IndexOf` finds. */
  lemma {:induction false} IndexOfIsFirst(s: string, c: char)
    requires c in s
    ensures forall k :: 0 <= k < IndexOf(s, c) ==> s[k] != c
    decreases |s|
  {
    if s[0] != c {
      var t := s[1..];
      IndexOfIsFirst(t, c);
      forall k | 0 <= k < IndexOf(s, c) ensures s[k] != c {
        if k > 0 { assert s[k] == t[k - 1]; }
      }
    }
  }

  /** The last position of `c` in `s` (`str.rfind` when `c` occurs). */
  function LastIndexOf(s: string, c: char): (r: nat)
    requires c in s
    ensures r < |s| && s[r] == c
    decreases |s|
  {
    if s[|s| - 1] == c then |s| - 1
    else
      assert c in s[..|s| - 1] by {
        var k :| 0 <= k < |s| && s[k] == c;
        assert s[..|s| - 1][k] == c;
      }
      LastIndexOf(s[..|s| - 1], c)
  }

  /** No `c` follows the position `LastIndexOf` finds. */
  lemma {:induction false} LastIndexOfIsLast(s: string, c: char)
    requires c in s
    ensures forall k :: LastIndexOf(s, c) < k < |s| ==> s[k] != c
    decreases |s|
  {
    if s[|s| - 1] != c {
      var init := s[..|s| - 1];
      assert c in init by {
        var k :| 0 <= k < |s| && s[k] == c;
        assert init[k] == c;
      }
      LastIndexOfIsLast(init, c);
      forall k | LastIndexOf(s, c) < k < |s| ensures s[k] != c {
        if k < |init| {
          assert s[k] == init[k];
        }
      }
    }
  }

  // ---------------------------------------------------------------------------
  // split and join
  // ---------------------------------------------------------------------------

  /** `s.split(c)` for a one-character separator. */
  function Split(s: string, c: char): (parts: seq<string>)
    ensures |parts| > 0
    ensures forall i :: 0 <= i < |parts| ==> c !in parts[i]
    decreases |s|
  {
    if c !in s then [s]
    else
      var i := IndexOf(s, c);
      IndexOfIsFirst(s, c);
      [s[..i]] + Split(s[i + 1..], c)
  }

  /** `sep.join(parts)`. */
  function Join(sep: string, parts: seq<string>): string
    decreases |parts|
  {
    if |parts| == 0 then ""
    else if |parts| == 1 then parts[0]
    else parts[0] + sep + Join(sep, parts[1..])
  }

  /** Joining the pieces of a split with the same separator gives back the string. */
  lemma {:induction false} JoinSplit(s: string, c: char)
    ensures Join([c], Split(s, c)) == s
    decreases |s|
  {
    if c in s {
      var i := IndexOf(s, c);
      var rest := Split(s[i + 1..], c);
      JoinSplit(s[i + 1..], c);
      assert ([s[..i]] + rest)[1..] == rest;
      assert s == s[..i] + [c] + s[i + 1..];
    }
  }

  /** Splitting a join of separator-free pieces gives back the pieces. */
  lemma {:induction false} SplitJoin(parts: seq<string>, c: char)
    requires |parts| > 0
    requires forall i :: 0 <= i < |parts| ==> c !in parts[i]
    ensures Split(Join([c], parts), c) == parts
    decreases |parts|
  {
    if |parts| > 1 {
      var p0 := parts[0];
      var tail := Join([c], parts[1..]);
      SplitFirst(p0, c, tail);
      SplitJoin(parts[1..], c);
      assert parts == [p0] + parts[1..];
    }
  }

  /** The first piece of a split ends at the first separator. */
  lemma {:induction false} SplitFirst(a: string, c: char, b: string)
    requires c !in a
    ensures Split(a + [c] + b, c) == [a] + Split(b, c)
  {
    var s := a + [c] + b;
    assert s[|a|] == c;
    IndexOfIsFirst(s, c);
    assert IndexOf(s, c) == |a|;
    assert s[..|a|] == a;
    assert s[|a| + 1..] == b;
  }

  /** The pieces of a split are joined with the separator only between them. */
  lemma {:induction false} JoinTail(s: string, c: char)
    requires c in s
    ensures Join([c], Split(s, c)[1..]) == s[IndexOf(s, c) + 1..]
  {
    SplitTail(s, c);
    JoinSplit(s[IndexOf(s, c) + 1..], c);
  }

  /** The pieces after the first are the split of the text after the first separator. */
  lemma SplitTail(s: string, c: char)
    requires c in s
    ensures Split(s, c)[1..] == Split(s[IndexOf(s, c) + 1..], c)
  {
    var i := IndexOf(s, c);
    var rest := Split(s[i + 1..], c);
    IndexOfIsFirst(s, c);
    forall k | 0 <= k < i ensures s[..i][k] != c {
      assert s[..i][k] == s[k];
    }
    assert s == s[..i] + [c] + s[i + 1..];
    SplitFirst(s[..i], c, s[i + 1..]);
    assert ([s[..i]] + rest)[1..] == rest;
  }

  // ---------------------------------------------------------------------------
  // Paths
  // ---------------------------------------------------------------------------

  /** `os.path.basename` on a POSIX path: the text after the last `/`. */
  function Basename(p: string): (r: string)
    ensures |r| <= |p|
  {
    if '/' in p then p[LastIndexOf(p, '/') + 1..] else p
  }

  /** The basename is the slash-free tail of the path, preceded by a slash whenever it is not all of it. */
  lemma BasenameIsTail(p: string)
    ensures var r := Basename(p);
      '/' !in r && p[|p| - |r|..] == r && (|r| < |p| ==> p[|p| - |r| - 1] == '/')
  {
    if '/' in p {
      var i := LastIndexOf(p, '/');
      LastIndexOfIsLast(p, '/');
      var r := p[i + 1..];
      forall k | 0 <= k < |r| ensures r[k] != '/' {
        assert r[k] == p[i + 1 + k];
      }
    }
  }

  /** A directory part in front of a `/` does not change the basename. */
  lemma {:induction false} BasenameAfterSlash(dir: string, name: string)
    requires '/' !in name
    ensures Basename(dir + "/" + name) == name
  {
    var p := dir + "/" + name;
    var r := Basename(p);
    BasenameIsTail(p);
    assert p[|p| - |name| - 1] == '/';
    if |r| > |name| {
      assert false;
    } else if |r| < |name| {
      assert false;
    }
    assert r == p[|p| - |name|..] == name;
  }

  /**
    The first half of `os.path.splitext` applied to a basename: everything
    before the last `.`, unless every character before that dot is itself a
    dot (a leading-dot name such as `.pdf` has no extension).
  */
  function Stem(name: string): string
  {
    if '.' !in name then name
    else
      var dot := LastIndexOf(name, '.');
      if HasNonDot(name[..dot]) then name[..dot] else name
  }

  /** Whether `s` has a character other than `.`. */
  predicate HasNonDot(s: string)
    decreases |s|
  {
    |s| > 0 && (s[|s| - 1] != '.' || HasNonDot(s[..|s| - 1]))
  }

  lemma {:induction false} HasNonDotIff(s: string)
    ensures HasNonDot(s) <==> exists j :: 0 <= j < |s| && s[j] != '.'
    decreases |s|
  {
    if |s| > 0 {
      var init := s[..|s| - 1];
      HasNonDotIff(init);
      if exists j :: 0 <= j < |init| && init[j] != '.' {
        var j :| 0 <= j < |init| && init[j] != '.';
        assert s[j] == init[j];
      }
      if exists j :: 0 <= j < |s| && s[j] != '.' {
        var j :| 0 <= j < |s| && s[j] != '.';
        if j < |init| {
          assert init[j] == s[j];
        }
      }
    }
  }

  // ---------------------------------------------------------------------------
  // strip
  // ---------------------------------------------------------------------------

  /** The characters Python's `str.isspace` accepts. */
  predicate IsSpace(c: char)
  {
    c == ' ' || '\t' <= c <= '\r' || '\U{1C}' <= c <= '\U{1F}' || c == '\U{85}' || c == '\U{A0}'
    || c == '\U{1680}' || '\U{2000}' <= c <= '\U{200A}' || c == '\U{2028}' || c == '\U{2029}'
    || c == '\U{202F}' || c == '\U{205F}' || c == '\U{3000}'
  }

  predicate AllSpace(s: string) { forall i :: 0 <= i < |s| ==> IsSpace(s[i]) }

  /** `s.lstrip()`: drop leading whitespace. */
  function StripLeft(s: string): (r: string)
    ensures |r| <= |s|
    decreases |s|
  {
    if |s| > 0 && IsSpace(s[0]) then StripLeft(s[1..]) else s
  }

  /** `lstrip` removes a run of whitespace from the front, up to a character that is not whitespace. */
  lemma {:induction false} StripLeftIsSuffix(s: string)
    ensures var r := StripLeft(s);
      r == s[|s| - |r|..] && AllSpace(s[..|s| - |r|]) && (|r| > 0 ==> !IsSpace(r[0]))
    decreases |s|
  {
    if |s| > 0 && IsSpace(s[0]) {
      var t := s[1..];
      StripLeftIsSuffix(t);
      var r := StripLeft(t);
      assert t[|t| - |r|..] == s[|s| - |r|..];
      forall i | 0 <= i < |s| - |r| ensures IsSpace(s[i]) {
        if i > 0 { assert s[i] == t[..|t| - |r|][i - 1]; }
      }
    }
  }

  /** `s.rstrip()`: drop trailing whitespace. */
  function StripRight(s: string): (r: string)
    ensures |r| <= |s|
    decreases |s|
  {
    if |s| > 0 && IsSpace(s[|s| - 1]) then StripRight(s[..|s| - 1]) else s
  }

  /** `rstrip` removes a run of whitespace from the back, down to a character that is not whitespace. */
  lemma {:induction false} StripRightIsPrefix(s: string)
    ensures var r := StripRight(s);
      r == s[..|r|] && AllSpace(s[|r|..]) && (|r| > 0 ==> !IsSpace(r[|r| - 1]))
    decreases |s|
  {
    if |s| > 0 && IsSpace(s[|s| - 1]) {
      var t := s[..|s| - 1];
      StripRightIsPrefix(t);
      var r := StripRight(t);
      assert t[..|r|] == s[..|r|];
      forall i | |r| <= i < |s| ensures IsSpace(s[i]) {
        if i < |t| { assert s[i] == t[|r|..][i - |r|]; }
      }
    }
  }

  /** `s.strip()`. */
  function Strip(s: string): string
  {
    StripRight(StripLeft(s))
  }

  /** `strip` yields the empty string exactly when the input is all whitespace. */
  lemma {:induction false} StripEmptyIff(s: string)
    ensures Strip(s) == "" <==> AllSpace(s)
  {
    StripLeftAllSpace(s);
    StripRightEmpty(StripLeft(s));
  }

  lemma {:induction false} StripLeftAllSpace(s: string)
    ensures AllSpace(StripLeft(s)) <==> AllSpace(s)
  {
    var l := StripLeft(s);
    StripLeftIsSuffix(s);
    assert s == s[..|s| - |l|] + l;
    AllSpaceConcat(s[..|s| - |l|], l);
  }

  lemma {:induction false} StripRightEmpty(s: string)
    ensures StripRight(s) == "" <==> AllSpace(s)
  {
    var r := StripRight(s);
    StripRightIsPrefix(s);
    if |r| > 0 {
      assert r[|r| - 1] == s[|r| - 1];
    } else {
      assert s[|r|..] == s;
    }
  }

  lemma {:induction false} AllSpaceConcat(a: string, b: string)
    requires AllSpace(a)
    ensures AllSpace(a + b) <==> AllSpace(b)
  {
    if AllSpace(a + b) {
      forall i | 0 <= i < |b| ensures IsSpace(b[i]) {
        assert b[i] == (a + b)[|a| + i];
      }
    }
  }

  /** A string with no whitespace at either end is left alone by `strip`. */
  lemma StripUnchanged(s: string)
    requires |s| > 0 && !IsSpace(s[0]) && !IsSpace(s[|s| - 1])
    ensures Strip(s) == s
  {
  }

  /** Joining with a single space gives all-whitespace text exactly when every piece is all whitespace. */
  lemma {:induction false} JoinSpaceAllSpace(parts: seq<string>)
    ensures AllSpace(Join(" ", parts)) <==> forall i :: 0 <= i < |parts| ==> AllSpace(parts[i])
    decreases |parts|
  {
    if |parts| > 1 {
      var rest := Join(" ", parts[1..]);
      JoinSpaceAllSpace(parts[1..]);
      var s := parts[0] + " " + rest;
      if AllSpace(s) {
        forall k | 0 <= k < |parts[0]| ensures IsSpace(parts[0][k]) { assert s[k] == parts[0][k]; }
        forall k | 0 <= k < |rest| ensures IsSpace(rest[k]) { assert s[|parts[0]| + 1 + k] == rest[k]; }
        forall i | 0 <= i < |parts| ensures AllSpace(parts[i]) {
          if i > 0 { assert parts[i] == parts[1..][i - 1]; }
        }
      }
      if forall i :: 0 <= i < |parts| ==> AllSpace(parts[i]) {
        assert forall i :: 0 <= i < |parts| - 1 ==> AllSpace(parts[1..][i]);
        assert AllSpace(parts[0]);
        forall k | 0 <= k < |s| ensures IsSpace(s[k]) {
          if k < |parts[0]| { assert s[k] == parts[0][k]; }
          else if k > |parts[0]| { assert s[k] == rest[k - |parts[0]| - 1]; }
        }
      }
    }
  }

  // ---------------------------------------------------------------------------
  // replace(pattern, "")
  // ---------------------------------------------------------------------------

  predicate OccursAt(s: string, pat: string, i: nat)
  {
    i + |pat| <= |s| && s[i..i + |pat|] == pat
  }

  predicate Occurs(s: string, pat: string)
  {
    exists i: nat :: i <= |s| && OccursAt(s, pat, i)
  }

  /**
    `s.replace(pat, "")`: one left-to-right pass that deletes every
    non-overlapping occurrence of `pat`; text that only becomes an occurrence
    once its neighbours are deleted stays.
  */
  function RemoveAll(s: string, pat: string): (r: string)
    requires |pat| > 0
    ensures |r| <= |s|
    decreases |s|
  {
    if |s| < |pat| then s
    else if s[..|pat|] == pat then RemoveAll(s[|pat|..], pat)
    else [s[0]] + RemoveAll(s[1..], pat)
  }

  /** A string without an occurrence of the pattern passes through unchanged. */
  lemma {:induction false} RemoveAllNoOccurrence(s: string, pat: string)
    requires |pat| > 0
    requires !Occurs(s, pat)
    ensures RemoveAll(s, pat) == s
    decreases |s|
  {
    if |s| >= |pat| {
      assert !OccursAt(s, pat, 0);
      assert s[..|pat|] != pat;
      forall i: nat | i <= |s[1..]| ensures !OccursAt(s[1..], pat, i) {
        assert !OccursAt(s, pat, i + 1);
        if i + |pat| <= |s[1..]| {
          assert s[1..][i..i + |pat|] == s[i + 1..i + 1 + |pat|];
        }
      }
      RemoveAllNoOccurrence(s[1..], pat);
      assert s == [s[0]] + s[1..];
    }
  }

  /**
    Text inside which no occurrence of the pattern starts passes through,
    and the scan goes on after it.
  */
  lemma {:induction false} RemoveAllKeepsUnmatched(x: string, t: string, pat: string)
    requires |pat| > 0
    requires forall i: nat :: i < |x| ==> !OccursAt(x + t, pat, i)
    ensures RemoveAll(x + t, pat) == x + RemoveAll(t, pat)
    decreases |x|
  {
    if |x| == 0 {
      assert x + t == t;
    } else {
      var y := x[1..];
      assert !OccursAt(x + t, pat, 0);
      RemoveAllKeep(x + t, pat);
      UnmatchedTail(x, t, pat);
      RemoveAllKeepsUnmatched(y, t, pat);
      assert x + RemoveAll(t, pat) == [x[0]] + (y + RemoveAll(t, pat));
    }
  }

  /** A character at which no occurrence starts is kept and the scan goes on after it. */
  lemma {:induction false} RemoveAllKeep(s: string, pat: string)
    requires |pat| > 0 && |s| > 0
    requires !OccursAt(s, pat, 0)
    ensures RemoveAll(s, pat) == [s[0]] + RemoveAll(s[1..], pat)
  {
    assert s == [s[0]] + s[1..];
  }

  /** Dropping the first character keeps the text free of occurrences starting in it. */
  lemma {:induction false} UnmatchedTail(x: string, t: string, pat: string)
    requires |x| > 0
    requires forall i: nat :: i < |x| ==> !OccursAt(x + t, pat, i)
    ensures (x + t)[1..] == x[1..] + t
    ensures forall i: nat :: i < |x[1..]| ==> !OccursAt(x[1..] + t, pat, i)
  {
    var s := x + t;
    var y := x[1..];
    assert s[1..] == y + t;
    forall i: nat | i < |y| ensures !OccursAt(y + t, pat, i) {
      assert !OccursAt(s, pat, i + 1);
      if i + |pat| <= |y + t| {
        assert (y + t)[i..i + |pat|] == s[i + 1..i + 1 + |pat|];
      }
    }
  }

  /** An occurrence at the front is deleted and the scan goes on after it. */
  lemma {:induction false} RemoveAllLeading(pat: string, s: string)
    requires |pat| > 0
    ensures RemoveAll(pat + s, pat) == RemoveAll(s, pat)
  {
    assert (pat + s)[..|pat|] == pat;
    assert (pat + s)[|pat|..] == s;
  }
}
