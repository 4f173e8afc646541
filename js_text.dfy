/**
 * The small part of JavaScript's string and array behaviour that the
 * directory browser and the thumbnail library rely on: character classes
 * used by their regular expressions, ASCII case folding, `String.prototype.split`
 * and `Array.prototype.join`/`pop` with a one-character separator.
 */
module JsText {

  datatype Option<+T> = None | Some(value: T)

  /** A completed JavaScript call: a value, or an exception that propagates. */
  datatype Result<+T> = Ok(value: T) | Err(error: string)

  /** The characters that `.` in a regular expression does not match. */
  predicate IsLineTerminator(c: char) {
    c == '\n' || c == '\r' || c == '\U{2028}' || c == '\U{2029}'
  }

  /** `\d` */
  predicate IsDigit(c: char) {
    '0' <= c <= '9'
  }

  /** `\w` */
  predicate IsWordChar(c: char) {
    IsDigit(c) || 'a' <= c <= 'z' || 'A' <= c <= 'Z' || c == '_'
  }

  /**
   * Case folding of the `i` flag without the `u` flag: only ASCII letters
   * fold onto ASCII letters, so folding to lower case is enough to compare
   * against the ASCII patterns of this program.
   */
  function LowerChar(c: char): char {
    if 'A' <= c <= 'Z' then (c as int + 32) as char else c
  }

  function LowerAscii(s: string): (r: string)
    ensures |r| == |s|
    ensures forall i :: 0 <= i < |s| ==> r[i] == LowerChar(s[i])
  {
    seq(|s|, i requires 0 <= i < |s| => LowerChar(s[i]))
  }

  /** Folding twice is folding once. */
  lemma LowerAsciiIdempotent(s: string)
    ensures LowerAscii(LowerAscii(s)) == LowerAscii(s)
  {
  }

  /** Folding commutes with taking a slice. */
  lemma LowerAsciiSlice(s: string, i: nat, j: nat)
    requires i <= j <= |s|
    ensures LowerAscii(s)[i..j] == LowerAscii(s[i..j])
  {
  }

  /** `needle` occurs in `haystack` starting at index `i`. */
  predicate OccursAt(haystack: string, needle: string, i: int) {
    0 <= i <= |haystack| - |needle| && haystack[i..i + |needle|] == needle
  }

  /** `haystack.includes(needle)` */
  predicate Contains(haystack: string, needle: string) {
    exists i | 0 <= i <= |haystack| - |needle| :: OccursAt(haystack, needle, i)
  }

  /** Index of the last occurrence of `c` in `s` (`s.lastIndexOf(c)`, or None for -1). */
  function LastIndexOf(s: string, c: char): (r: Option<nat>)
    ensures r.None? <==> c !in s
    ensures r.Some? ==> r.value < |s| && s[r.value] == c && c !in s[r.value + 1..]
  {
    if |s| == 0 then None
    else if s[|s| - 1] == c then Some(|s| - 1)
    else
      var r := LastIndexOf(s[..|s| - 1], c);
      assert s == s[..|s| - 1] + [s[|s| - 1]];
      r
  }

  /** `s.split(sep)` for a one-character separator: never empty, `"".split(sep) == [""]`. */
  function Split(s: string, sep: char): (parts: seq<string>)
    ensures |parts| >= 1
    decreases |s|
  {
    if |s| == 0 then [""]
    else
      var init := Split(s[..|s| - 1], sep);
      if s[|s| - 1] == sep then init + [""]
      else init[..|init| - 1] + [init[|init| - 1] + [s[|s| - 1]]]
  }

  /** `parts.join(sep)` */
  function Join(parts: seq<string>, sep: char): string
    decreases |parts|
  {
    if |parts| == 0 then ""
    else if |parts| == 1 then parts[0]
    else Join(parts[..|parts| - 1], sep) + [sep] + parts[|parts| - 1]
  }

  /** The array left behind by `xs.pop()`: popping an empty array changes nothing. */
  function Pop<T>(xs: seq<T>): (r: seq<T>)
    ensures |xs| > 0 ==> r + [xs[|xs| - 1]] == xs
    ensures |xs| == 0 ==> r == []
  {
    if |xs| == 0 then xs else xs[..|xs| - 1]
  }

  /** Joining the pieces of a split gives the string back. */
  lemma {:induction false} JoinSplit(s: string, sep: char)
    ensures Join(Split(s, sep), sep) == s
    decreases |s|
  {
    if |s| > 0 {
      var init := Split(s[..|s| - 1], sep);
      JoinSplit(s[..|s| - 1], sep);
      var last := s[|s| - 1];
      assert s == s[..|s| - 1] + [last];
      if last == sep {
        var parts := init + [""];
        assert parts[..|parts| - 1] == init;
      } else {
        JoinExtendLast(init, sep, last);
      }
    }
  }

  /** Extending the last piece extends the joined string by the same character. */
  lemma JoinExtendLast(parts: seq<string>, sep: char, c: char)
    requires |parts| >= 1
    ensures Join(parts[..|parts| - 1] + [parts[|parts| - 1] + [c]], sep) == Join(parts, sep) + [c]
  {
    var longer := parts[..|parts| - 1] + [parts[|parts| - 1] + [c]];
    if |parts| > 1 {
      assert longer[..|longer| - 1] == parts[..|parts| - 1];
    }
  }

  /** A string without the separator splits into itself alone. */
  lemma {:induction false} SplitWithoutSeparator(s: string, sep: char)
    requires sep !in s
    ensures Split(s, sep) == [s]
    decreases |s|
  {
    if |s| > 0 {
      assert sep !in s[..|s| - 1];
      SplitWithoutSeparator(s[..|s| - 1], sep);
      assert s == s[..|s| - 1] + [s[|s| - 1]];
    }
  }

  /** Splitting at the last separator: the pieces of the head, then the tail. */
  lemma {:induction false} SplitAtLast(head: string, sep: char, tail: string)
    requires sep !in tail
    ensures Split(head + [sep] + tail, sep) == Split(head, sep) + [tail]
    decreases |tail|
  {
    var s := head + [sep] + tail;
    if |tail| == 0 {
      assert s[..|s| - 1] == head;
    } else {
      var t' := tail[..|tail| - 1];
      assert sep !in t';
      assert s[..|s| - 1] == head + [sep] + t';
      SplitAtLast(head, sep, t');
      assert t' + [tail[|tail| - 1]] == tail;
    }
  }

  /** The last piece of a split is the text after the last separator. */
  lemma SplitLastPiece(s: string, sep: char)
    ensures var parts := Split(s, sep);
      parts[|parts| - 1] == match LastIndexOf(s, sep) case None => s case Some(k) => s[k + 1..]
  {
    match LastIndexOf(s, sep)
    case None =>
      SplitWithoutSeparator(s, sep);
    case Some(k) =>
      assert s == s[..k] + [sep] + s[k + 1..];
      SplitAtLast(s[..k], sep, s[k + 1..]);
  }
}
