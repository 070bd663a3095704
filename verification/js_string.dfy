/** The parts of JavaScript's string semantics the submission pipeline relies on:
    `String.prototype.trim`, `String.prototype.split` with a one-character
    separator, and `length`, which counts UTF-16 code units. */
module JsString {

  /** The code points `trim` removes: the ECMAScript WhiteSpace production
      (tab, vertical tab, form feed, space, no-break space, byte order mark and
      every Unicode "Zs" space separator) and the LineTerminator production
      (line feed, carriage return, line and paragraph separators). */
  const JsWhitespace: set<char> := {
    '\t', '\n', '\U{000B}', '\U{000C}', '\r', ' ', '\U{00A0}', '\U{1680}',
    '\U{2000}', '\U{2001}', '\U{2002}', '\U{2003}', '\U{2004}', '\U{2005}',
    '\U{2006}', '\U{2007}', '\U{2008}', '\U{2009}', '\U{200A}',
    '\U{2028}', '\U{2029}', '\U{202F}', '\U{205F}', '\U{3000}', '\U{FEFF}'
  }

  predicate IsJsWhitespace(c: char)
  {
    c in JsWhitespace
  }

  predicate AllWhitespace(s: string)
  {
    forall i :: 0 <= i < |s| ==> IsJsWhitespace(s[i])
  }

  /** Neither end of `s` is whitespace (vacuously true of the empty string). */
  predicate Unpadded(s: string)
  {
    s == [] || (!IsJsWhitespace(s[0]) && !IsJsWhitespace(s[|s| - 1]))
  }

  /** `s.trim()`: strips whitespace from the front, then from the back. What
      is left is unpadded, and empty exactly when `s` is all whitespace. */
  function Trim(s: string): (r: string)
    ensures Unpadded(r)
    ensures r == [] <==> AllWhitespace(s)
  {
    if |s| > 0 && IsJsWhitespace(s[0]) then
      var r := Trim(s[1..]);
      assert AllWhitespace(s) <==> AllWhitespace(s[1..]);
      r
    else if |s| > 0 && IsJsWhitespace(s[|s| - 1]) then
      var r := Trim(s[..|s| - 1]);
      assert AllWhitespace(s) <==> AllWhitespace(s[..|s| - 1]);
      r
    else
      s
  }

  /** `trim` leaves an unpadded string as it is. */
  lemma TrimUnpadded(s: string)
    requires Unpadded(s)
    ensures Trim(s) == s
  {
  }

  /** Trimming twice is trimming once. */
  lemma TrimIdempotent(s: string)
    ensures Trim(Trim(s)) == Trim(s)
  {
    TrimUnpadded(Trim(s));
  }

  /** Everything of `s` before index `i` and from index `j` on is whitespace. */
  predicate WhitespaceOutside(s: string, i: int, j: int)
    requires 0 <= i <= j <= |s|
  {
    (forall k :: 0 <= k < i ==> IsJsWhitespace(s[k])) &&
    (forall k :: j <= k < |s| ==> IsJsWhitespace(s[k]))
  }

  lemma WhitespaceOutsideFront(s: string, i: nat, j: nat)
    requires |s| > 0 && IsJsWhitespace(s[0]) && i <= j <= |s| - 1
    requires WhitespaceOutside(s[1..], i, j)
    ensures WhitespaceOutside(s, i + 1, j + 1) && s[1..][i..j] == s[i + 1..j + 1]
  {
  }

  lemma WhitespaceOutsideBack(s: string, i: nat, j: nat)
    requires |s| > 0 && IsJsWhitespace(s[|s| - 1]) && i <= j <= |s| - 1
    requires WhitespaceOutside(s[..|s| - 1], i, j)
    ensures WhitespaceOutside(s, i, j) && s[..|s| - 1][i..j] == s[i..j]
  {
  }

  /** The ends of an unpadded infix are not whitespace. */
  lemma UnpaddedInfix(s: string, i: nat, j: nat)
    requires i <= j <= |s| && Unpadded(s[i..j])
    ensures i < j ==> !IsJsWhitespace(s[i]) && !IsJsWhitespace(s[j - 1])
  {
    if i < j {
      assert s[i..j][0] == s[i] && s[i..j][j - i - 1] == s[j - 1];
    }
  }

  /** `trim` removes only whitespace, from the two ends: `Trim(s)` is an infix
      `s[i..j]` with nothing but whitespace around it. */
  lemma {:induction false} TrimInfix(s: string)
    ensures exists i, j :: 0 <= i <= j <= |s| && Trim(s) == s[i..j] && WhitespaceOutside(s, i, j)
  {
    if |s| > 0 && IsJsWhitespace(s[0]) {
      TrimInfix(s[1..]);
      var i, j :| 0 <= i <= j <= |s| - 1 && Trim(s[1..]) == s[1..][i..j] && WhitespaceOutside(s[1..], i, j);
      WhitespaceOutsideFront(s, i, j);
      assert Trim(s) == s[i + 1..j + 1];
    } else if |s| > 0 && IsJsWhitespace(s[|s| - 1]) {
      TrimInfix(s[..|s| - 1]);
      var i, j :| 0 <= i <= j <= |s| - 1 && Trim(s[..|s| - 1]) == s[..|s| - 1][i..j]
                  && WhitespaceOutside(s[..|s| - 1], i, j);
      WhitespaceOutsideBack(s, i, j);
      assert Trim(s) == s[i..j];
    } else {
      assert Trim(s) == s[0..|s|] && WhitespaceOutside(s, 0, |s|);
    }
  }

  /** Conversely, an unpadded infix with only whitespace around it is what
      `trim` returns, so the two lemmas pin `Trim` down completely. */
  lemma {:induction false} TrimOfInfix(s: string, i: nat, j: nat)
    requires i <= j <= |s| && WhitespaceOutside(s, i, j) && Unpadded(s[i..j])
    ensures Trim(s) == s[i..j]
  {
    if |s| > 0 && IsJsWhitespace(s[0]) {
      var t := s[1..];
      if i > 0 {
        assert t[i - 1..j - 1] == s[i..j];
        assert WhitespaceOutside(t, i - 1, j - 1);
        TrimOfInfix(t, i - 1, j - 1);
      } else {
        UnpaddedInfix(s, i, j);
        assert WhitespaceOutside(t, 0, 0);
        TrimOfInfix(t, 0, 0);
      }
    } else if |s| > 0 && IsJsWhitespace(s[|s| - 1]) {
      var t := s[..|s| - 1];
      UnpaddedInfix(s, i, j);
      assert t[i..j] == s[i..j];
      assert WhitespaceOutside(t, i, j);
      TrimOfInfix(t, i, j);
    } else if |s| > 0 {
      assert i == 0 && j == |s|;
    }
  }

  /** `s.length`: UTF-16 code units, two for a code point outside the Basic
      Multilingual Plane. */
  function Utf16Length(s: string): (n: nat)
    ensures |s| <= n <= 2 * |s|
  {
    if s == [] then 0
    else (if s[0] as int >= 0x1_0000 then 2 else 1) + Utf16Length(s[1..])
  }

  /** A string of Basic Multilingual Plane code points has as many UTF-16 code
      units as characters. */
  lemma {:induction false} Utf16LengthBmp(s: string)
    requires forall i :: 0 <= i < |s| ==> s[i] as int < 0x1_0000
    ensures Utf16Length(s) == |s|
  {
    if s != [] {
      Utf16LengthBmp(s[1..]);
    }
  }

  /** `s.split(sep)` for a one-character separator: the pieces between
      separators, at least one, none containing the separator. */
  function Split(s: string, sep: char): (parts: seq<string>)
    ensures |parts| >= 1
    ensures forall k :: 0 <= k < |parts| ==> sep !in parts[k]
  {
    if s == [] then [[]]
    else
      var rest := Split(s[1..], sep);
      if s[0] == sep then [[]] + rest
      else [[s[0]] + rest[0]] + rest[1..]
  }

  /** `parts.join(sep)`. */
  function Join(parts: seq<string>, sep: char): string
  {
    if parts == [] then []
    else if |parts| == 1 then parts[0]
    else parts[0] + [sep] + Join(parts[1..], sep)
  }

  /** Joining the pieces back with the separator gives the original string. */
  lemma {:induction false} JoinSplit(s: string, sep: char)
    ensures Join(Split(s, sep), sep) == s
  {
    if s != [] {
      var rest := Split(s[1..], sep);
      JoinSplit(s[1..], sep);
      if s[0] == sep {
        assert Split(s, sep) == [[]] + rest;
      } else {
        if |rest| == 1 {
          assert Join(Split(s, sep), sep) == [s[0]] + rest[0];
        } else {
          assert Split(s, sep)[1..] == rest[1..];
          assert Join(rest, sep) == rest[0] + [sep] + Join(rest[1..], sep);
        }
      }
    }
  }

  /** A string without the separator is a single piece. */
  lemma {:induction false} SplitNoSeparator(s: string, sep: char)
    requires sep !in s
    ensures Split(s, sep) == [s]
  {
    if s != [] {
      SplitNoSeparator(s[1..], sep);
      assert [s[0]] + s[1..] == s;
    }
  }

  /** Splitting at one occurrence of the separator splits each side apart. */
  lemma {:induction false} SplitAtSeparator(a: string, b: string, sep: char)
    ensures Split(a + [sep] + b, sep) == Split(a, sep) + Split(b, sep)
  {
    if a == [] {
      assert [] + [sep] + b == [sep] + b;
      assert ([sep] + b)[1..] == b;
    } else {
      var s := a + [sep] + b;
      assert s[0] == a[0];
      assert s[1..] == a[1..] + [sep] + b;
      SplitAtSeparator(a[1..], b, sep);
    }
  }

  /** Splitting a join of separator-free pieces gives the pieces back. */
  lemma {:induction false} SplitJoin(parts: seq<string>, sep: char)
    requires |parts| >= 1
    requires forall k :: 0 <= k < |parts| ==> sep !in parts[k]
    ensures Split(Join(parts, sep), sep) == parts
  {
    if |parts| == 1 {
      SplitNoSeparator(parts[0], sep);
    } else {
      SplitJoin(parts[1..], sep);
      SplitAtSeparator(parts[0], Join(parts[1..], sep), sep);
      SplitNoSeparator(parts[0], sep);
    }
  }

  /** `s.split(sep).pop()`: the last piece. */
  function LastSegment(s: string, sep: char): (last: string)
    ensures sep !in last
  {
    var parts := Split(s, sep);
    parts[|parts| - 1]
  }

  /** The last piece of a string that has the separator is the text after its
      last occurrence. */
  lemma LastSegmentAfterLast(prefix: string, suffix: string, sep: char)
    requires sep !in suffix
    ensures LastSegment(prefix + [sep] + suffix, sep) == suffix
  {
    SplitAtSeparator(prefix, suffix, sep);
    SplitNoSeparator(suffix, sep);
  }

  /** The last piece of a string without the separator is the whole string. */
  lemma LastSegmentWhole(s: string, sep: char)
    requires sep !in s
    ensures LastSegment(s, sep) == s
  {
    SplitNoSeparator(s, sep);
  }

  predicate IsAsciiDigit(c: char)
  {
    '0' <= c <= '9'
  }
}
