/** The JavaScript string operations the generator relies on, over `seq<char>`. */
module Text {
  import opened Maybe

  /** The characters of JavaScript's `\s` class; `String.prototype.trim` strips the same
      set, and `Number(c)` reads a lone one of them as 0. */
  predicate IsWhitespace(c: char) {
    || c == ' ' || c == '\t' || c == '\n' || c == '\U{000B}' || c == '\U{000C}' || c == '\r'
    || c == '\U{00A0}' || c == '\U{1680}' || ('\U{2000}' <= c <= '\U{200A}')
    || c == '\U{2028}' || c == '\U{2029}' || c == '\U{202F}' || c == '\U{205F}'
    || c == '\U{3000}' || c == '\U{FEFF}'
  }

  predicate AllWhitespace(s: string) {
    forall i :: 0 <= i < |s| ==> IsWhitespace(s[i])
  }

  predicate IsDigit(c: char) {
    '0' <= c <= '9'
  }

  predicate IsAsciiLetter(c: char) {
    ('a' <= c <= 'z') || ('A' <= c <= 'Z')
  }

  predicate NoChar(s: string, c: char) {
    forall i :: 0 <= i < |s| ==> s[i] != c
  }

  /** Every character of `s` in `[a, b)` is white space. */
  predicate WhitespaceBetween(s: string, a: nat, b: nat)
    requires a <= b <= |s|
  {
    forall k :: a <= k < b ==> IsWhitespace(s[k])
  }

  /** `s[i..j]` is what is left of `s` after removing white space at both ends. */
  predicate TrimmedAt(s: string, i: nat, j: nat)
    requires i <= j <= |s|
  {
    && WhitespaceBetween(s, 0, i)
    && WhitespaceBetween(s, j, |s|)
    && (i == j || (!IsWhitespace(s[i]) && !IsWhitespace(s[j - 1])))
  }

  /** Position of the first non-white-space character at or after `from`. */
  function SkipWhitespace(s: string, from: nat): (n: nat)
    requires from <= |s|
    ensures from <= n <= |s| && WhitespaceBetween(s, from, n)
    ensures n < |s| ==> !IsWhitespace(s[n])
    decreases |s| - from
  {
    if from == |s| || !IsWhitespace(s[from]) then from else SkipWhitespace(s, from + 1)
  }

  /** One past the last non-white-space character before `to`. */
  function SkipWhitespaceBack(s: string, to: nat): (n: nat)
    requires to <= |s|
    ensures n <= to && WhitespaceBetween(s, n, to)
    ensures 0 < n ==> !IsWhitespace(s[n - 1])
  {
    if to == 0 || !IsWhitespace(s[to - 1]) then to else SkipWhitespaceBack(s, to - 1)
  }

  /** Length of the white-space run that starts `s`. */
  function LeadingWhitespace(s: string): (n: nat)
    ensures n <= |s| && AllWhitespace(s[..n])
    ensures n < |s| ==> !IsWhitespace(s[n])
  {
    SkipWhitespace(s, 0)
  }

  /** `s.trim()`: the slice of `s` left once the white space at both ends is removed. */
  function Trim(s: string): (r: string)
    ensures r == [] || (!IsWhitespace(r[0]) && !IsWhitespace(r[|r| - 1]))
    ensures exists i: nat, j: nat :: i <= j <= |s| && TrimmedAt(s, i, j) && r == s[i..j]
  {
    var i := SkipWhitespace(s, 0);
    if i == |s| then
      assert TrimmedAt(s, i, i) && s[i..i] == [];
      []
    else
      var j := SkipWhitespaceBack(s, |s|);
      assert !IsWhitespace(s[i]);
      assert TrimmedAt(s, i, j);
      s[i..j]
  }

  /** The margins determine the trim: any split of `s` into white space, a core that
      neither starts nor ends with white space, and white space, has that core as trim. */
  lemma TrimUnique(s: string, i: nat, j: nat)
    requires i <= j <= |s| && TrimmedAt(s, i, j)
    ensures Trim(s) == s[i..j]
  {
    var r := Trim(s);
    var i': nat, j': nat :| i' <= j' <= |s| && TrimmedAt(s, i', j') && r == s[i'..j'];
    if i == j {
      assert forall k :: 0 <= k < |s| ==> IsWhitespace(s[k]);
    } else {
      assert !IsWhitespace(s[i]) && !IsWhitespace(s[j - 1]);
    }
  }

  /** `pat` occurs in `s` at position `i`. */
  predicate OccursAt(s: string, pat: string, i: nat) {
    i + |pat| <= |s| && s[i..i + |pat|] == pat
  }

  predicate StartsWith(s: string, pat: string) {
    OccursAt(s, pat, 0)
  }

  function IndexFrom(s: string, pat: string, from: nat): (r: Option<nat>)
    requires from <= |s|
    ensures r.Some? ==> from <= r.value && OccursAt(s, pat, r.value)
    ensures r.Some? ==> forall j :: from <= j < r.value ==> !OccursAt(s, pat, j)
    ensures r.None? ==> forall j :: from <= j <= |s| ==> !OccursAt(s, pat, j)
    decreases |s| - from
  {
    if OccursAt(s, pat, from) then Some(from)
    else if from == |s| then None
    else IndexFrom(s, pat, from + 1)
  }

  /** `s.indexOf(pat)`: the first position where `pat` occurs. */
  function IndexOf(s: string, pat: string): (r: Option<nat>)
    ensures r.Some? ==> OccursAt(s, pat, r.value)
    ensures r.Some? ==> forall j :: 0 <= j < r.value ==> !OccursAt(s, pat, j)
    ensures r.None? ==> forall j :: 0 <= j <= |s| ==> !OccursAt(s, pat, j)
  {
    IndexFrom(s, pat, 0)
  }

  /** There is one first occurrence. */
  lemma FirstOccurrenceUnique(s: string, pat: string, i: nat)
    requires OccursAt(s, pat, i) && forall j :: 0 <= j < i ==> !OccursAt(s, pat, j)
    ensures forall i': nat :: OccursAt(s, pat, i') && (forall j :: 0 <= j < i' ==> !OccursAt(s, pat, j)) ==> i' == i
  {
  }

  /** `s.replace(pat, rep)` with a string pattern: only the first occurrence is replaced. */
  function ReplaceFirst(s: string, pat: string, rep: string): (r: string)
    ensures (forall j :: 0 <= j <= |s| ==> !OccursAt(s, pat, j)) ==> r == s
    ensures forall i: nat :: OccursAt(s, pat, i) && (forall j :: 0 <= j < i ==> !OccursAt(s, pat, j))
              ==> r == s[..i] + rep + s[i + |pat|..]
  {
    match IndexOf(s, pat)
    case Some(i) =>
      FirstOccurrenceUnique(s, pat, i);
      s[..i] + rep + s[i + |pat|..]
    case None => s
  }

  /** `s.split(sep)` with a one-character separator. */
  function Split(s: string, sep: char): (parts: seq<string>)
    ensures |parts| >= 1
    ensures forall k :: 0 <= k < |parts| ==> NoChar(parts[k], sep)
  {
    match IndexOf(s, [sep])
    case None =>
      assert NoChar(s, sep) by {
        forall i | 0 <= i < |s| ensures s[i] != sep { assert !OccursAt(s, [sep], i); }
      }
      [s]
    case Some(i) =>
      assert NoChar(s[..i], sep) by {
        forall k | 0 <= k < i ensures s[k] != sep { assert !OccursAt(s, [sep], k); }
      }
      [s[..i]] + Split(s[i + 1..], sep)
  }

  /** `parts.join(sep)`. */
  function Join(parts: seq<string>, sep: string): string {
    if |parts| == 0 then ""
    else if |parts| == 1 then parts[0]
    else parts[0] + sep + Join(parts[1..], sep)
  }

  /** Splitting undoes joining when no part holds the separator. */
  lemma {:induction false} SplitJoin(parts: seq<string>, sep: char)
    requires |parts| >= 1
    requires forall k :: 0 <= k < |parts| ==> NoChar(parts[k], sep)
    ensures Split(Join(parts, [sep]), sep) == parts
  {
    if |parts| == 1 {
      SplitWhole(parts[0], sep);
    } else {
      var rest := Join(parts[1..], [sep]);
      assert Join(parts, [sep]) == parts[0] + [sep] + rest;
      SplitFirst(parts[0], rest, sep);
      SplitJoin(parts[1..], sep);
      assert parts == [parts[0]] + parts[1..];
    }
  }

  /** Text without the separator is one part. */
  lemma SplitWhole(s: string, sep: char)
    requires NoChar(s, sep)
    ensures Split(s, sep) == [s]
  {
    forall j | 0 <= j <= |s| ensures !OccursAt(s, [sep], j) {
      if j < |s| { assert s[j..j + 1][0] == s[j]; }
    }
  }

  /** The first separator ends the first part. */
  lemma SplitFirst(a: string, rest: string, sep: char)
    requires NoChar(a, sep)
    ensures Split(a + [sep] + rest, sep) == [a] + Split(rest, sep)
  {
    var s := a + [sep] + rest;
    assert OccursAt(s, [sep], |a|) by { assert s[|a|..|a| + 1] == [sep]; }
    forall j | 0 <= j < |a| ensures !OccursAt(s, [sep], j) {
      assert s[j..j + 1][0] == a[j];
    }
    assert IndexOf(s, [sep]) == Some(|a|);
    assert s[..|a|] == a;
    assert s[|a| + 1..] == rest;
  }

  /** Joining parts and a separator that lack a character gives text that lacks it. */
  lemma {:induction false} JoinNoChar(parts: seq<string>, sep: string, c: char)
    requires NoChar(sep, c) && forall k :: 0 <= k < |parts| ==> NoChar(parts[k], c)
    ensures NoChar(Join(parts, sep), c)
    decreases |parts|
  {
    if |parts| > 1 {
      JoinNoChar(parts[1..], sep, c);
      var rest := Join(parts[1..], sep);
      var s := parts[0] + sep + rest;
      forall i | 0 <= i < |s| ensures s[i] != c {
        if i < |parts[0]| { assert s[i] == parts[0][i]; }
        else if i < |parts[0]| + |sep| { assert s[i] == sep[i - |parts[0]|]; }
        else { assert s[i] == rest[i - |parts[0]| - |sep|]; }
      }
    } else if |parts| == 1 {
      assert NoChar(parts[0], c);
    }
  }

  /** Joining undoes splitting. */
  lemma {:induction false} JoinSplit(s: string, sep: char)
    ensures Join(Split(s, sep), [sep]) == s
    decreases |s|
  {
    match IndexOf(s, [sep])
    case None =>
    case Some(i) =>
      JoinSplit(s[i + 1..], sep);
      assert s[i..i + 1] == [sep];
      assert s == s[..i] + [sep] + s[i + 1..];
  }

  /** ASCII lower-casing; every character that lower-cases into the ASCII letters
      and '-' of the recognised command-line flags is itself ASCII. */
  function AsciiLower(s: string): (r: string)
    ensures |r| == |s|
    ensures forall i :: 0 <= i < |s| ==> r[i] == (if 'A' <= s[i] <= 'Z' then (s[i] - 'A' + 'a') as char else s[i])
  {
    seq(|s|, i requires 0 <= i < |s| => if 'A' <= s[i] <= 'Z' then (s[i] - 'A' + 'a') as char else s[i])
  }

  /** The number of UTF-16 code units a character takes: two (a surrogate pair) for
      a character outside the Basic Multilingual Plane, one otherwise. */
  function Utf16Width(c: char): (r: nat)
    ensures 1 <= r <= 2
  {
    if c as int >= 0x1_0000 then 2 else 1
  }

  /** The length of a text in UTF-16 code units, as JavaScript counts it. */
  function Utf16Length(s: string): (r: nat)
    ensures |s| <= r <= 2 * |s|
  {
    if |s| == 0 then 0 else Utf16Width(s[0]) + Utf16Length(s[1..])
  }

  /** `s.substring(k)` on the UTF-16 form of `s`: the text from code unit `k` on,
      empty when `s` is shorter. `None` when unit `k` is the second half of a
      surrogate pair, since the JavaScript result then starts with a lone surrogate,
      which is no character here. */
  function Utf16Suffix(s: string, k: nat): (r: Option<string>)
    ensures r.Some? ==> |r.value| <= |s|
    decreases |s|
  {
    if k == 0 then Some(s)
    else if |s| == 0 then Some([])
    else if k < Utf16Width(s[0]) then None
    else Utf16Suffix(s[1..], k - Utf16Width(s[0]))
  }

  /** Cutting after a whole prefix leaves the rest. */
  lemma {:induction false} Utf16SuffixAfter(p: string, w: string)
    ensures Utf16Suffix(p + w, Utf16Length(p)) == Some(w)
    decreases |p|
  {
    if |p| == 0 {
      assert p + w == w;
    } else {
      assert (p + w)[1..] == p[1..] + w;
      Utf16SuffixAfter(p[1..], w);
    }
  }

  /** Cutting between the halves of a surrogate pair gives no character text. */
  lemma Utf16SuffixSplitsPair(b: char, c: char, w: string)
    requires Utf16Width(b) == 1 && Utf16Width(c) == 2
    ensures Utf16Suffix([b, c] + w, 2) == None
  {
    assert ([b, c] + w)[1..] == [c] + w;
  }
}
