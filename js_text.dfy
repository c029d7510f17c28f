/**
 * The pieces of JavaScript string semantics the bot relies on: which
 * characters the regular-expression dot refuses (line terminators), which
 * characters `String.prototype.trim` removes, and `split`/`join`.
 */
module JsText {

  /** The four ECMAScript line terminators; the regex `.` matches every other character. */
  predicate IsLineTerminator(c: char) {
    c == '\n' || c == '\r' || c == '\U{2028}' || c == '\U{2029}'
  }

  /** ECMAScript WhiteSpace: TAB, VT, FF, ZWNBSP and every space separator (category Zs). */
  predicate IsJsWhiteSpace(c: char) {
    c == '\t' || c == '\U{000B}' || c == '\U{000C}' || c == '\U{FEFF}' ||
    c == ' ' || c == '\U{00A0}' || c == '\U{1680}' ||
    ('\U{2000}' <= c <= '\U{200A}') ||
    c == '\U{202F}' || c == '\U{205F}' || c == '\U{3000}'
  }

  /** The characters `trim` strips from both ends of a string. */
  predicate IsTrimmable(c: char) {
    IsJsWhiteSpace(c) || IsLineTerminator(c)
  }

  /** No line terminator occurs in s[i..j]. */
  predicate LineFree(s: string, i: nat, j: nat) {
    i <= j <= |s| && forall k :: i <= k < j ==> !IsLineTerminator(s[k])
  }

  predicate NoLineTerminator(s: string) {
    LineFree(s, 0, |s|)
  }

  /** t occurs in s starting at position p. */
  predicate HasPrefixAt(s: string, p: nat, t: string) {
    p + |t| <= |s| && forall m :: 0 <= m < |t| ==> s[p + m] == t[m]
  }

  lemma PrefixChar(s: string, p: nat, t: string, m: nat)
    requires HasPrefixAt(s, p, t) && m < |t|
    ensures s[p + m] == t[m]
  {
  }

  /** One differing character rules out an occurrence. */
  lemma PrefixCharMismatch(s: string, p: nat, t: string, m: nat)
    requires m < |t| && (p + m < |s| ==> s[p + m] != t[m])
    ensures !HasPrefixAt(s, p, t)
  {
  }

  lemma HasPrefixAtConcat(s: string, p: nat, a: string, b: string)
    requires HasPrefixAt(s, p, a) && HasPrefixAt(s, p + |a|, b)
    ensures HasPrefixAt(s, p, a + b)
  {
    forall m | 0 <= m < |a + b| ensures s[p + m] == (a + b)[m] {
      if m >= |a| {
        assert s[p + |a| + (m - |a|)] == b[m - |a|];
      }
    }
  }

  lemma HasPrefixAtSplit(s: string, p: nat, a: string, b: string)
    requires HasPrefixAt(s, p, a + b)
    ensures HasPrefixAt(s, p, a) && HasPrefixAt(s, p + |a|, b)
  {
    forall m | 0 <= m < |a| ensures s[p + m] == a[m] {
      assert s[p + m] == (a + b)[m];
    }
    forall m | 0 <= m < |b| ensures s[p + |a| + m] == b[m] {
      assert s[p + (|a| + m)] == (a + b)[|a| + m];
    }
  }

  /** An occurrence of t in s at p is the slice of s there, and keeps t's freedom from line terminators. */
  lemma PrefixSlice(s: string, p: nat, t: string)
    requires HasPrefixAt(s, p, t)
    ensures s[p..p + |t|] == t
    ensures NoLineTerminator(t) ==> LineFree(s, p, p + |t|)
  {
    forall m | 0 <= m < |t| ensures s[p..p + |t|][m] == t[m] {
      assert s[p..p + |t|][m] == s[p + m];
    }
  }

  /** The first position at or after i that ends the current line: a line terminator or the end of s. */
  function LineEnd(s: string, i: nat): (j: nat)
    requires i <= |s|
    ensures i <= j <= |s| && LineFree(s, i, j)
    ensures j == |s| || IsLineTerminator(s[j])
    decreases |s| - i
  {
    if i == |s| || IsLineTerminator(s[i]) then i else LineEnd(s, i + 1)
  }

  /** Where `trimStart` cuts: the first non-trimmable character at or after i, or the end. */
  function TrimStartIndex(s: string, i: nat): (k: nat)
    requires i <= |s|
    ensures i <= k <= |s| && (k == |s| || !IsTrimmable(s[k]))
    ensures forall m :: i <= m < k ==> IsTrimmable(s[m])
    decreases |s| - i
  {
    if i < |s| && IsTrimmable(s[i]) then TrimStartIndex(s, i + 1) else i
  }

  /** Where `trimEnd` cuts s[..j]: just after its last non-trimmable character at or after i. */
  function TrimEndIndex(s: string, i: nat, j: nat): (k: nat)
    requires i <= j <= |s|
    ensures i <= k <= j && (k == i || !IsTrimmable(s[k - 1]))
    ensures forall m :: k <= m < j ==> IsTrimmable(s[m])
    decreases j
  {
    if i < j && IsTrimmable(s[j - 1]) then TrimEndIndex(s, i, j - 1) else j
  }

  /**
   * s[i..j] is what is left of s once the trimmable characters at both ends
   * are removed: everything outside it is trimmable, and it neither starts
   * nor ends with a trimmable character.
   */
  predicate TrimsTo(s: string, i: nat, j: nat) {
    i <= j <= |s| &&
    (forall k :: 0 <= k < i ==> IsTrimmable(s[k])) &&
    (forall k :: j <= k < |s| ==> IsTrimmable(s[k])) &&
    (i == j || (!IsTrimmable(s[i]) && !IsTrimmable(s[j - 1])))
  }

  /** `trim`. */
  function Trim(s: string): (r: string)
    ensures exists i: nat, j: nat :: TrimsTo(s, i, j) && r == s[i..j]
  {
    var i := TrimStartIndex(s, 0);
    var j := TrimEndIndex(s, i, |s|);
    assert TrimsTo(s, i, j);
    s[i..j]
  }

  /** Trimming keeps a string free of line terminators. */
  lemma TrimKeepsLineFree(s: string)
    requires NoLineTerminator(s)
    ensures NoLineTerminator(Trim(s))
  {
    var r := Trim(s);
    var i: nat, j: nat :| TrimsTo(s, i, j) && r == s[i..j];
    forall k | 0 <= k < |r| ensures !IsLineTerminator(r[k]) {
      assert r[k] == s[i + k];
    }
  }

  /** A trimmed string neither starts nor ends with a trimmable character. */
  lemma TrimEnds(s: string)
    ensures var r := Trim(s); r == [] || (!IsTrimmable(r[0]) && !IsTrimmable(r[|r| - 1]))
  {
    var r := Trim(s);
    var i: nat, j: nat :| TrimsTo(s, i, j) && r == s[i..j];
    if r != [] {
      assert r[0] == s[i] && r[|r| - 1] == s[j - 1];
    }
  }

  /** A string that neither starts nor ends with a trimmable character is its own trim. */
  lemma TrimOfTrimmed(s: string)
    requires s != [] && !IsTrimmable(s[0]) && !IsTrimmable(s[|s| - 1])
    ensures Trim(s) == s
  {
    var r := Trim(s);
    var i: nat, j: nat :| TrimsTo(s, i, j) && r == s[i..j];
  }

  /** A string made only of trimmable characters trims to the empty string. */
  lemma TrimAllTrimmable(s: string)
    requires forall k :: 0 <= k < |s| ==> IsTrimmable(s[k])
    ensures Trim(s) == []
  {
    var r := Trim(s);
    var i: nat, j: nat :| TrimsTo(s, i, j) && r == s[i..j];
  }

  /** `Array.prototype.join`: the parts with sep between consecutive ones. */
  function Join(parts: seq<string>, sep: string): string {
    if |parts| == 0 then ""
    else if |parts| == 1 then parts[0]
    else parts[0] + sep + Join(parts[1..], sep)
  }

  /**
   * `String.prototype.split` with a one-character separator: always at least
   * one part, and no part contains the separator.
   */
  function Split(s: string, sep: char): (parts: seq<string>)
    ensures |parts| >= 1
    ensures forall i :: 0 <= i < |parts| ==> sep !in parts[i]
  {
    if s == [] then [[]]
    else
      var rest := Split(s[1..], sep);
      if s[0] == sep then [[]] + rest
      else [[s[0]] + rest[0]] + rest[1..]
  }

  /** Joining the parts of a split with the separator gives back the string. */
  lemma {:induction false} JoinSplit(s: string, sep: char)
    ensures Join(Split(s, sep), [sep]) == s
  {
    if s != [] {
      var rest := Split(s[1..], sep);
      JoinSplit(s[1..], sep);
      if s[0] == sep {
        assert Split(s, sep) == [[]] + rest;
        assert ([[]] + rest)[1..] == rest;
        assert s == [sep] + s[1..];
      } else {
        var parts := Split(s, sep);
        assert parts == [[s[0]] + rest[0]] + rest[1..];
        if |rest| == 1 {
          assert s == [s[0]] + s[1..];
        } else {
          assert parts[1..] == rest[1..];
          assert s == [s[0]] + s[1..];
        }
      }
    }
  }

  /**
   * The last part of a split (`split(sep).pop()`) is the tail of s after the
   * last separator: a suffix of s that is either all of s or preceded by sep.
   */
  lemma {:induction false} LastPartIsTail(s: string, sep: char)
    ensures var parts := Split(s, sep); var last := parts[|parts| - 1];
      |last| <= |s| && last == s[|s| - |last|..] &&
      (|last| == |s| || s[|s| - |last| - 1] == sep) &&
      (|parts| > 1 ==> |last| < |s|)
  {
    if s != [] {
      var rest := Split(s[1..], sep);
      LastPartIsTail(s[1..], sep);
      var parts := Split(s, sep);
      var last := parts[|parts| - 1];
      if s[0] == sep {
        assert last == rest[|rest| - 1];
      } else if |rest| == 1 {
        JoinSplit(s[1..], sep);
        assert rest[0] == s[1..];
        assert last == [s[0]] + s[1..];
      } else {
        assert last == rest[|rest| - 1];
      }
    }
  }
}
