/**
 * The few Python string operations the decoder relies on: str.isspace,
 * str.strip (with and without an explicit character set), str.startswith
 * and str.split on a single separator character.
 */
module Strings {

  /** The 29 characters for which Python's str.isspace() holds, listed one by one. */
  const Whitespace: set<char> := {
    '\t', '\n', '\U{0B}', '\U{0C}', '\r', '\U{1C}', '\U{1D}', '\U{1E}', '\U{1F}', ' ',
    '\U{85}', '\U{A0}', '\U{1680}',
    '\U{2000}', '\U{2001}', '\U{2002}', '\U{2003}', '\U{2004}', '\U{2005}',
    '\U{2006}', '\U{2007}', '\U{2008}', '\U{2009}', '\U{200A}',
    '\U{2028}', '\U{2029}', '\U{202F}', '\U{205F}', '\U{3000}'
  }

  /** Python's str.isspace() for one character, as ranges of code points. */
  predicate IsSpace(c: char) {
    ('\t' <= c <= '\r') || ('\U{1C}' <= c <= '\U{1F}') || c == ' '
    || c == '\U{85}' || c == '\U{A0}' || c == '\U{1680}'
    || ('\U{2000}' <= c <= '\U{200A}') || c == '\U{2028}' || c == '\U{2029}'
    || c == '\U{202F}' || c == '\U{205F}' || c == '\U{3000}'
  }

  /** The ranges in IsSpace cover exactly the listed whitespace characters. */
  lemma WhitespaceChars(c: char)
    ensures IsSpace(c) <==> c in Whitespace
  {
  }

  /** str.startswith: the first |prefix| characters of `s` are those of `prefix`. */
  predicate StartsWith(s: string, prefix: string)
    ensures StartsWith(s, prefix) <==>
              |prefix| <= |s| && forall i :: 0 <= i < |prefix| ==> s[i] == prefix[i]
  {
    |prefix| <= |s| && s[..|prefix|] == prefix
  }

  /** Neither end of `s` is a character that `drop` would strip. */
  predicate IsStripped(s: string, drop: char -> bool) {
    s == [] || (!drop(s[0]) && !drop(s[|s| - 1]))
  }

  /** The number of `drop` characters `s` starts with. */
  function LeadingRun(s: string, drop: char -> bool): (n: nat)
    ensures n <= |s|
    ensures forall k :: 0 <= k < n ==> drop(s[k])
    ensures n < |s| ==> !drop(s[n])
    decreases |s|
  {
    if s != [] && drop(s[0]) then 1 + LeadingRun(s[1..], drop) else 0
  }

  /** The number of `drop` characters `s` ends with. */
  function TrailingRun(s: string, drop: char -> bool): (n: nat)
    ensures n <= |s|
    ensures forall k :: |s| - n <= k < |s| ==> drop(s[k])
    ensures n < |s| ==> !drop(s[|s| - n - 1])
    decreases |s|
  {
    if s != [] && drop(s[|s| - 1]) then 1 + TrailingRun(s[..|s| - 1], drop) else 0
  }

  /**
   * str.strip: the slice of `s` between its leading and its trailing run of
   * `drop` characters. The result starts right after the leading run, only
   * `drop` characters follow it, and it is stripped, so both runs removed
   * are the longest ones. It is empty exactly when every character of `s`
   * is stripped away, it keeps a first character that is not stripped, and
   * an already stripped string is left as it is.
   */
  function Strip(s: string, drop: char -> bool): (r: string)
    ensures LeadingRun(s, drop) + |r| <= |s|
    ensures forall i :: 0 <= i < |r| ==> r[i] == s[LeadingRun(s, drop) + i]
    ensures forall k :: LeadingRun(s, drop) + |r| <= k < |s| ==> drop(s[k])
    ensures IsStripped(r, drop)
    ensures r == [] <==> forall k :: 0 <= k < |s| ==> drop(s[k])
    ensures s != [] && !drop(s[0]) ==> r != [] && r[0] == s[0]
    ensures IsStripped(s, drop) ==> r == s
  {
    var start := LeadingRun(s, drop);
    if start == |s| then []
    else
      var trailing := TrailingRun(s, drop);
      assert !drop(s[start]);
      s[start..|s| - trailing]
  }

  /** Stripping whitespace from " ab " leaves "ab". */
  lemma StripExample()
    ensures Strip(" ab ", IsSpace) == "ab"
  {
    var s := " ab ";
    assert LeadingRun(s, IsSpace) == 1 by {
      assert s[1..] == "ab ";
    }
    assert TrailingRun(s, IsSpace) == 1 by {
      assert s[..3] == " ab";
    }
  }

  lemma StripIdempotent(s: string, drop: char -> bool)
    ensures Strip(Strip(s, drop), drop) == Strip(s, drop)
  {
  }

  /** str.split(separator): the pieces between occurrences of `separator`. */
  function Split(s: string, separator: char): (parts: seq<string>)
    ensures |parts| >= 1
    ensures forall i :: 0 <= i < |parts| ==> separator !in parts[i]
    decreases |s|
  {
    if s == [] then [""]
    else
      var rest := Split(s[1..], separator);
      if s[0] == separator then [""] + rest
      else [[s[0]] + rest[0]] + rest[1..]
  }

  /** separator.join(parts) */
  function Join(parts: seq<string>, separator: char): string
    decreases |parts|
  {
    if |parts| == 0 then ""
    else if |parts| == 1 then parts[0]
    else parts[0] + [separator] + Join(parts[1..], separator)
  }

  /** Joining the pieces of a split gives back the string. */
  lemma {:induction false} JoinSplit(s: string, separator: char)
    ensures Join(Split(s, separator), separator) == s
    decreases |s|
  {
    if s != [] {
      var rest := Split(s[1..], separator);
      JoinSplit(s[1..], separator);
      if s[0] == separator {
        assert Split(s, separator) == [""] + rest;
        assert s == [s[0]] + s[1..];
      } else {
        var parts := Split(s, separator);
        assert parts == [[s[0]] + rest[0]] + rest[1..];
        if |rest| == 1 {
          assert s == [s[0]] + rest[0];
        } else {
          assert parts[1..] == rest[1..];
          assert Join(rest, separator) == rest[0] + [separator] + Join(rest[1..], separator);
          assert s == [s[0]] + s[1..];
        }
      }
    }
  }

  /** A piece without the separator, then the separator, then the rest. */
  lemma {:induction false} SplitAfterPiece(a: string, separator: char, t: string)
    requires separator !in a
    ensures Split(a + [separator] + t, separator) == [a] + Split(t, separator)
    decreases |a|
  {
    var s := a + [separator] + t;
    if a == [] {
      assert s[1..] == t;
    } else {
      assert s[1..] == a[1..] + [separator] + t;
      SplitAfterPiece(a[1..], separator, t);
      assert a == [a[0]] + a[1..];
    }
  }

  /** A string without the separator splits into itself alone. */
  lemma {:induction false} SplitWhole(a: string, separator: char)
    requires separator !in a
    ensures Split(a, separator) == [a]
    decreases |a|
  {
    if a != [] {
      SplitWhole(a[1..], separator);
      assert a == [a[0]] + a[1..];
    }
  }

  /** Splitting the join of separator-free pieces gives back the pieces. */
  lemma {:induction false} SplitJoin(parts: seq<string>, separator: char)
    requires |parts| >= 1
    requires forall i :: 0 <= i < |parts| ==> separator !in parts[i]
    ensures Split(Join(parts, separator), separator) == parts
    decreases |parts|
  {
    if |parts| == 1 {
      SplitWhole(parts[0], separator);
    } else {
      SplitJoin(parts[1..], separator);
      SplitAfterPiece(parts[0], separator, Join(parts[1..], separator));
      assert parts == [parts[0]] + parts[1..];
    }
  }

  /**
   * The first piece of a split is a prefix of the string, and it ends at
   * the end of the string or at the first separator.
   */
  lemma {:induction false} SplitHead(s: string, separator: char)
    ensures StartsWith(s, Split(s, separator)[0])
    ensures |Split(s, separator)[0]| == |s| || s[|Split(s, separator)[0]|] == separator
    decreases |s|
  {
    if s != [] && s[0] != separator {
      SplitHead(s[1..], separator);
      var head := Split(s[1..], separator)[0];
      assert Split(s, separator)[0] == [s[0]] + head;
      assert s == [s[0]] + s[1..];
    }
  }
}
